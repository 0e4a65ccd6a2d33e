/**
 * The file-manager sidebar: the `.tex` name normalisation used when creating
 * and renaming, the stripping of `.tex` that pre-fills the rename dialog, the
 * case-insensitive search filter, and the dialog state those handlers update.
 */
module FileManagerPanel {
  import opened Wrappers
  import opened Text
  import opened UseFileManager

  const TEX: string := ".tex"

  /** The content of every file created from the dialog. */
  const NEW_FILE_TEMPLATE: string :=
    "\\documentclass{article}\n\\usepackage[utf8]{inputenc}\n\\title{My Document}\n\\author{Author}\n\\date{\\today}\n\n\\begin{document}\n\\maketitle\n\n\\section{Introduction}\nThis is a new LaTeX document.\n\n\\end{document}"

  /** The name as given when it already ends with `.tex`, otherwise with `.tex` appended. */
  function NormalizeName(name: string): (r: string)
    ensures EndsWith(r, TEX)
    ensures r == name || r == name + TEX
    ensures r == name <==> EndsWith(name, TEX)
  {
    if EndsWith(name, TEX) then name else name + TEX
  }

  /** Normalising twice is normalising once. */
  lemma NormalizeIdempotent(name: string)
    ensures NormalizeName(NormalizeName(name)) == NormalizeName(name)
  {
  }

  /** `name.replace(".tex", "")`: only the FIRST occurrence goes. */
  function StripTex(name: string): (r: string)
    ensures IndexOf(name, TEX, 0).None? ==> r == name
    ensures IndexOf(name, TEX, 0).Some? ==>
      var k := IndexOf(name, TEX, 0).value; k <= |r| && name == r[..k] + TEX + r[k..]
  {
    match IndexOf(name, TEX, 0)
    case Some(k) => name[..k] + name[k + |TEX|..]
    case None => name
  }

  /**
   * Starting a rename and confirming it unchanged gives the original name back,
   * when `.tex` occurs in the name only as its suffix and the rest is not blank.
   */
  lemma RenameRoundTrip(name: string)
    requires IndexOf(name, TEX, 0) == Some(|name| - |TEX|)
    requires !IsBlank(name[..|name| - |TEX|])
    ensures !IsBlank(StripTex(name))
    ensures NormalizeName(StripTex(name)) == name
  {
    var stem := name[..|name| - |TEX|];
    SuffixSplit(name, TEX);
    assert StripTex(name) == stem by {
      assert name[|name| - |TEX| + |TEX|..] == [];
    }
    if |stem| >= |TEX| {
      assert !OccursAt(name, TEX, |stem| - |TEX|);
      NoEarlierSuffix(stem, TEX);
    }
  }

  lemma SuffixSplit(s: string, t: string)
    requires |t| <= |s| && t <= s[|s| - |t|..]
    ensures s == s[..|s| - |t|] + t
  {
  }

  /** A stem ending in `t` would put an occurrence of `t` at `|stem| - |t|` in `stem + t`. */
  lemma NoEarlierSuffix(stem: string, t: string)
    requires |t| <= |stem| && !OccursAt(stem + t, t, |stem| - |t|)
    ensures !EndsWith(stem, t)
  {
    assert (stem + t)[|stem| - |t|..][..|t|] == stem[|stem| - |t|..];
  }

  /** A name with `.tex` inside it loses that inner `.tex` and keeps the suffix. */
  lemma StripTexInner(stem: string, rest: string)
    requires !Contains(stem, TEX)
    ensures StripTex(stem + TEX + rest + TEX) == stem + rest + TEX
  {
    var name := stem + TEX + rest + TEX;
    assert OccursAt(name, TEX, |stem|) by {
      assert name[|stem|..] == TEX + rest + TEX;
    }
    forall k: nat | k < |stem|
      ensures !OccursAt(name, TEX, k)
    {
      if k + |TEX| <= |stem| {
        assert !OccursAt(stem, TEX, k);
        assert name[k..][..|TEX|] == stem[k..][..|TEX|];
      } else {
        var j := |stem| - k;
        assert name[k..][j] == name[|stem|] == '.';
        assert TEX[j] != '.';
      }
    }
    assert IndexOf(name, TEX, 0) == Some(|stem|);
    assert name[..|stem|] == stem && name[|stem| + |TEX|..] == rest + TEX;
  }

  /** `file.name.toLowerCase().includes(query.toLowerCase())`. */
  predicate Matches(file: FileItem, query: string) {
    Contains(Lower(file.name), Lower(query))
  }

  /** `files.filter(file => Matches(file, query))`. */
  function FilterFiles(files: seq<FileItem>, query: string): (r: seq<FileItem>)
    ensures forall f :: f in r <==> f in files && Matches(f, query)
    ensures |r| <= |files|
  {
    if files == [] then []
    else (if Matches(files[0], query) then [files[0]] else []) + FilterFiles(files[1..], query)
  }

  /** The filter keeps the list order: it works piecewise. */
  lemma {:induction false} FilterAppend(a: seq<FileItem>, b: seq<FileItem>, query: string)
    ensures FilterFiles(a + b, query) == FilterFiles(a, query) + FilterFiles(b, query)
  {
    if a != [] {
      assert (a + b)[0] == a[0] && (a + b)[1..] == a[1..] + b;
      FilterAppend(a[1..], b, query);
    } else {
      assert a + b == b;
    }
  }

  /** An empty query lists every file. */
  lemma {:induction false} EmptyQueryListsAll(files: seq<FileItem>)
    ensures FilterFiles(files, "") == files
  {
    if files != [] {
      assert [] <= Lower(files[0].name)[0..];
      assert Matches(files[0], "");
      EmptyQueryListsAll(files[1..]);
      assert files == [files[0]] + files[1..];
    }
  }

  /** The search ignores the case of ASCII letters in the query. */
  lemma {:induction false} QueryCaseIgnored(files: seq<FileItem>, query: string)
    ensures FilterFiles(files, Lower(query)) == FilterFiles(files, query)
  {
    LowerIdempotent(query);
    if files != [] {
      QueryCaseIgnored(files[1..], query);
    }
  }

  datatype CreateRequest = CreateRequest(name: string, content: string)
  datatype RenameRequest = RenameRequest(id: string, name: string)

  /** The dialog and search state of the file-manager sidebar. */
  class Panel {
    var newFileName: string
    var isCreateDialogOpen: bool
    var isRenameDialogOpen: bool
    var renameFileId: Option<string>
    var renameValue: string
    var searchQuery: string

    constructor ()
      ensures newFileName == "" && !isCreateDialogOpen && !isRenameDialogOpen
      ensures renameFileId == None && renameValue == "" && searchQuery == ""
    {
      newFileName := "";
      isCreateDialogOpen := false;
      isRenameDialogOpen := false;
      renameFileId := None;
      renameValue := "";
      searchQuery := "";
    }

    /** The files the sidebar lists for the current query. */
    function Listed(files: seq<FileItem>): (r: seq<FileItem>)
      reads this
      ensures forall f :: f in r <==> f in files && Matches(f, searchQuery)
      ensures searchQuery == "" ==> r == files
    {
      EmptyQueryListsAll(files);
      FilterFiles(files, searchQuery)
    }

    /**
     * A non-blank name asks for a new file with the normalised name and the
     * template content, then clears and closes the dialog; a blank name does nothing.
     */
    method HandleCreateFile() returns (request: Option<CreateRequest>)
      modifies this
      ensures IsBlank(old(newFileName)) ==> request == None && newFileName == old(newFileName) && isCreateDialogOpen == old(isCreateDialogOpen)
      ensures !IsBlank(old(newFileName)) ==>
        request == Some(CreateRequest(NormalizeName(old(newFileName)), NEW_FILE_TEMPLATE)) && newFileName == "" && !isCreateDialogOpen
      ensures request.Some? ==> EndsWith(request.value.name, TEX)
      ensures isRenameDialogOpen == old(isRenameDialogOpen) && renameFileId == old(renameFileId)
      ensures renameValue == old(renameValue) && searchQuery == old(searchQuery)
    {
      if Trim(newFileName) != [] {
        request := Some(CreateRequest(NormalizeName(newFileName), NEW_FILE_TEMPLATE));
        newFileName := "";
        isCreateDialogOpen := false;
      } else {
        request := None;
      }
    }

    /**
     * With a pending file id and a non-blank value, asks for the rename with the
     * normalised value, then clears and closes the dialog; otherwise does nothing.
     */
    method HandleRename() returns (request: Option<RenameRequest>)
      modifies this
      ensures var acts := old(renameFileId).Some? && old(renameFileId).value != "" && !IsBlank(old(renameValue));
        (acts ==> request == Some(RenameRequest(old(renameFileId).value, NormalizeName(old(renameValue))))
                  && renameFileId == None && renameValue == "" && !isRenameDialogOpen) &&
        (!acts ==> request == None && renameFileId == old(renameFileId) && renameValue == old(renameValue)
                   && isRenameDialogOpen == old(isRenameDialogOpen))
      ensures request.Some? ==> EndsWith(request.value.name, TEX)
      ensures newFileName == old(newFileName) && isCreateDialogOpen == old(isCreateDialogOpen) && searchQuery == old(searchQuery)
    {
      if renameFileId.Some? && renameFileId.value != "" && Trim(renameValue) != [] {
        request := Some(RenameRequest(renameFileId.value, NormalizeName(renameValue)));
        renameFileId := None;
        renameValue := "";
        isRenameDialogOpen := false;
      } else {
        request := None;
      }
    }

    /** Opens the rename dialog for the file, pre-filled with its name without the first `.tex`. */
    method StartRename(file: FileItem)
      modifies this
      ensures renameFileId == Some(file.id) && renameValue == StripTex(file.name) && isRenameDialogOpen
      ensures newFileName == old(newFileName) && isCreateDialogOpen == old(isCreateDialogOpen) && searchQuery == old(searchQuery)
    {
      renameFileId := Some(file.id);
      renameValue := StripTex(file.name);
      isRenameDialogOpen := true;
    }
  }
}
