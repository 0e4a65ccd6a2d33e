/**
 * The document store hook `useFileManager`: a list of file records, the id of
 * the current file and the text in the editor. The pure functions below are
 * the list updates the hook performs; `FileStore` is the hook's state, updated
 * in place by its callbacks.
 */
module UseFileManager {
  import opened Wrappers

  datatype FileKind = Tex | Pdf

  /** A file record; times are supplied by the caller as plain numbers. */
  datatype FileItem = FileItem(id: string, name: string, content: string, kind: FileKind, createdAt: int, updatedAt: int)

  /** The document every session starts with. */
  const EXAMPLE_CONTENT: string :=
      "\\documentclass{article}\n"
    + "\\usepackage[utf8]{inputenc}\n"
    + "\\usepackage{amsmath}\n"
    + "\\usepackage{amsfonts}\n"
    + "\\usepackage{amssymb}\n"
    + "\n"
    + "\\title{Example Document}\n"
    + "\\author{LaTeX Editor}\n"
    + "\\date{\\today}\n"
    + "\n"
    + "\\begin{document}\n"
    + "\n"
    + "\\maketitle\n"
    + "\n"
    + "\\section{Introduction}\n"
    + "This is an example document created using the LaTeX editor. You can write your content here.\n"
    + "\n"
    + "\\subsection{Mathematical Formulas}\n"
    + "Here are some examples of mathematical formulas:\n"
    + "\n"
    + "Inline formula: $E = mc^2$\n"
    + "\n"
    + "Block formula:\n"
    + "$$\\int_0^\\infty e^{-x^2} dx = \\frac{\\sqrt{\\pi}}{2}$$\n"
    + "\n"
    + "\\subsection{Text Formatting}\n"
    + "\\textbf{Bold text}\n"
    + "\n"
    + "\\textit{Italic text}\n"
    + "\n"
    + "\\underline{Underlined text}\n"
    + "\n"
    + "\\section{Lists}\n"
    + "\\subsection{Unordered List}\n"
    + "\\begin{itemize}\n"
    + "\\item First item\n"
    + "\\item Second item\n"
    + "\\item Third item\n"
    + "\\end{itemize}\n"
    + "\n"
    + "\\subsection{Ordered List}\n"
    + "\\begin{enumerate}\n"
    + "\\item First item\n"
    + "\\item Second item\n"
    + "\\item Third item\n"
    + "\\end{enumerate}\n"
    + "\n"
    + "\\section{Conclusion}\n"
    + "This is a simple LaTeX document example. You can modify this content to create your own document. \n"
    + "\n"
    + "\\end{document}"

  /** The ids of the files, in list order. */
  function Ids(files: seq<FileItem>): (ids: seq<string>)
    ensures |ids| == |files|
    ensures forall i :: 0 <= i < |files| ==> ids[i] == files[i].id
  {
    if files == [] then [] else [files[0].id] + Ids(files[1..])
  }

  predicate UniqueIds(files: seq<FileItem>) {
    forall i, j :: 0 <= i < j < |files| ==> files[i].id != files[j].id
  }

  predicate NonEmptyIds(files: seq<FileItem>) {
    forall i :: 0 <= i < |files| ==> files[i].id != ""
  }

  /** The position of the first file with the id. */
  function IndexOfId(files: seq<FileItem>, id: string): (r: Option<nat>)
    ensures r.Some? ==> r.value < |files| && files[r.value].id == id
    ensures r.Some? ==> forall j :: 0 <= j < r.value ==> files[j].id != id
    ensures r.None? <==> id !in Ids(files)
  {
    if files == [] then None
    else if files[0].id == id then Some(0)
    else match IndexOfId(files[1..], id)
      case Some(k) => Some(k + 1)
      case None => None
  }

  /** `files.find(f => f.id === id)`. */
  function Find(files: seq<FileItem>, id: string): (r: Option<FileItem>)
    ensures r.Some? <==> id in Ids(files)
    ensures r.Some? ==> r.value in files && r.value.id == id
  {
    match IndexOfId(files, id)
    case Some(k) => Some(files[k])
    case None => None
  }

  /** With unique ids, looking a file up by its id gives that file. */
  lemma FindUnique(files: seq<FileItem>, i: nat)
    requires UniqueIds(files) && i < |files|
    ensures IndexOfId(files, files[i].id) == Some(i)
    ensures Find(files, files[i].id) == Some(files[i])
  {
    var k := IndexOfId(files, files[i].id).value;
    assert !(k < i) && !(i < k);
  }

  /** `files.filter(f => f.id !== id)`. */
  function Without(files: seq<FileItem>, id: string): (r: seq<FileItem>)
    ensures forall f :: f in r <==> f in files && f.id != id
    ensures |r| <= |files|
  {
    if files == [] then []
    else (if files[0].id != id then [files[0]] else []) + Without(files[1..], id)
  }

  /** The filter keeps the order of the files it keeps: it works piecewise. */
  lemma {:induction false} WithoutAppend(a: seq<FileItem>, b: seq<FileItem>, id: string)
    ensures Without(a + b, id) == Without(a, id) + Without(b, id)
  {
    if a != [] {
      assert (a + b)[0] == a[0] && (a + b)[1..] == a[1..] + b;
      WithoutAppend(a[1..], b, id);
    } else {
      assert a + b == b;
    }
  }

  /** Deleting an id that is not there changes nothing. */
  lemma {:induction false} WithoutAbsent(files: seq<FileItem>, id: string)
    requires id !in Ids(files)
    ensures Without(files, id) == files
  {
    if files != [] {
      assert Ids(files[1..]) == Ids(files)[1..];
      WithoutAbsent(files[1..], id);
      assert files == [files[0]] + files[1..];
    }
  }

  /** Deleting a present id from a list with unique ids removes exactly one file. */
  lemma {:induction false} WithoutPresent(files: seq<FileItem>, id: string)
    requires UniqueIds(files) && id in Ids(files)
    ensures |Without(files, id)| == |files| - 1
  {
    if files[0].id == id {
      assert Ids(files[1..]) == Ids(files)[1..];
      assert id !in Ids(files[1..]);
      WithoutAbsent(files[1..], id);
    } else {
      assert Ids(files[1..]) == Ids(files)[1..];
      assert UniqueIds(files[1..]);
      WithoutPresent(files[1..], id);
    }
  }

  /** Putting a file with a new, non-empty id in front keeps ids unique and non-empty. */
  lemma ConsKeepsIds(f: FileItem, rest: seq<FileItem>)
    requires UniqueIds(rest) && NonEmptyIds(rest) && f.id != ""
    requires forall g :: g in rest ==> g.id != f.id
    ensures UniqueIds([f] + rest) && NonEmptyIds([f] + rest)
  {
    var r := [f] + rest;
    forall i, j | 0 <= i < j < |r|
      ensures r[i].id != r[j].id
    {
      assert r[j] == rest[j - 1];
      if i > 0 {
        assert r[i] == rest[i - 1];
      } else {
        assert rest[j - 1] in rest;
      }
    }
  }

  /** The files after the first keep unique, non-empty ids, none of them the first file's. */
  lemma TailIds(files: seq<FileItem>)
    requires files != [] && UniqueIds(files) && NonEmptyIds(files)
    ensures UniqueIds(files[1..]) && NonEmptyIds(files[1..])
    ensures forall g :: g in files[1..] ==> g.id != files[0].id
  {
    var tail := files[1..];
    forall i | 0 <= i < |tail|
      ensures tail[i] == files[i + 1]
    {
    }
  }

  /** The filter keeps ids unique and non-empty. */
  lemma {:induction false} WithoutKeepsIds(files: seq<FileItem>, id: string)
    requires UniqueIds(files) && NonEmptyIds(files)
    ensures UniqueIds(Without(files, id)) && NonEmptyIds(Without(files, id))
  {
    if files != [] {
      TailIds(files);
      WithoutKeepsIds(files[1..], id);
      var rest := Without(files[1..], id);
      if files[0].id != id {
        assert Without(files, id) == [files[0]] + rest;
        ConsKeepsIds(files[0], rest);
      } else {
        assert Without(files, id) == [] + rest == rest;
      }
    }
  }

  /** `files.map(f => f.id === id ? { ...f, name, updatedAt: now } : f)`. */
  function Renamed(files: seq<FileItem>, id: string, name: string, now: int): (r: seq<FileItem>)
    ensures |r| == |files|
    ensures forall i :: 0 <= i < |files| ==>
      r[i].id == files[i].id && r[i].content == files[i].content && r[i].kind == files[i].kind && r[i].createdAt == files[i].createdAt
    ensures forall i :: 0 <= i < |files| ==> r[i].name == (if files[i].id == id then name else files[i].name)
    ensures forall i :: 0 <= i < |files| && files[i].id != id ==> r[i] == files[i]
  {
    seq(|files|, i requires 0 <= i < |files| => if files[i].id == id then files[i].(name := name, updatedAt := now) else files[i])
  }

  /** `files.map(f => f.id === id ? { ...f, content, updatedAt: now } : f)`. */
  function WithContent(files: seq<FileItem>, id: string, content: string, now: int): (r: seq<FileItem>)
    ensures |r| == |files|
    ensures forall i :: 0 <= i < |files| ==>
      r[i].id == files[i].id && r[i].name == files[i].name && r[i].kind == files[i].kind && r[i].createdAt == files[i].createdAt
    ensures forall i :: 0 <= i < |files| ==> r[i].content == (if files[i].id == id then content else files[i].content)
    ensures forall i :: 0 <= i < |files| && files[i].id != id ==> r[i] == files[i]
  {
    seq(|files|, i requires 0 <= i < |files| => if files[i].id == id then files[i].(content := content, updatedAt := now) else files[i])
  }

  /** Lists with the same ids, position by position. */
  predicate SameIds(a: seq<FileItem>, b: seq<FileItem>) {
    |a| == |b| && forall i :: 0 <= i < |a| ==> a[i].id == b[i].id
  }

  /** Lists with the same ids agree on whether the ids are unique and non-empty. */
  lemma SameIdsKeep(a: seq<FileItem>, b: seq<FileItem>)
    requires SameIds(a, b) && UniqueIds(b) && NonEmptyIds(b)
    ensures UniqueIds(a) && NonEmptyIds(a)
  {
  }

  /** Lookups by id land on the same position in lists with the same ids. */
  lemma SameIdsSameIndex(a: seq<FileItem>, b: seq<FileItem>, id: string)
    requires SameIds(a, b)
    ensures IndexOfId(a, id) == IndexOfId(b, id)
  {
    assert Ids(a) == Ids(b);
    var ra, rb := IndexOfId(a, id), IndexOfId(b, id);
    if ra.Some? && rb.Some? {
      assert !(ra.value < rb.value) && !(rb.value < ra.value);
    }
  }

  /**
   * The hook's invariant: ids are unique and non-empty, and when the current
   * file exists its content is the editor's text.
   */
  predicate Consistent(files: seq<FileItem>, currentId: string, currentContent: string) {
    UniqueIds(files) && NonEmptyIds(files) &&
    (Find(files, currentId).Some? ==> Find(files, currentId).value.content == currentContent)
  }

  /** A list of one file with a non-empty id, that file current: the hook's starting state. */
  lemma SingleFileConsistent(f: FileItem)
    requires f.id != ""
    ensures Consistent([f], f.id, f.content)
  {
    FindUnique([f], 0);
  }

  /** Renaming keeps the invariant: ids and contents do not move. */
  lemma RenamePreserves(files: seq<FileItem>, currentId: string, currentContent: string, id: string, name: string, now: int)
    requires Consistent(files, currentId, currentContent)
    ensures Consistent(Renamed(files, id, name, now), currentId, currentContent)
  {
    SameIdsSameIndex(Renamed(files, id, name, now), files, currentId);
  }

  /** Writing the current content into the current file keeps the invariant with the new content. */
  lemma UpdatePreserves(files: seq<FileItem>, currentId: string, oldContent: string, content: string, now: int)
    requires Consistent(files, currentId, oldContent)
    ensures Consistent(if currentId != "" then WithContent(files, currentId, content, now) else files, currentId, content)
  {
    if currentId != "" {
      SameIdsSameIndex(WithContent(files, currentId, content, now), files, currentId);
    } else {
      assert currentId !in Ids(files);
    }
  }

  /** Selecting a file of the list, after writing the editor text back, keeps the invariant. */
  lemma SelectPreserves(files: seq<FileItem>, currentId: string, currentContent: string, file: FileItem, now: int)
    requires Consistent(files, currentId, currentContent)
    requires file in files
    ensures Consistent(if currentId != "" && currentId != file.id then WithContent(files, currentId, currentContent, now) else files, file.id, file.content)
  {
    var i :| 0 <= i < |files| && files[i] == file;
    FindUnique(files, i);
    if currentId != "" && currentId != file.id {
      var r := WithContent(files, currentId, currentContent, now);
      assert SameIds(r, files);
      SameIdsKeep(r, files);
      SameIdsSameIndex(r, files, file.id);
      assert r[i] == file;
      assert Find(r, file.id) == Some(file);
    }
  }

  /** Appending a file with a fresh id and making it current keeps the invariant. */
  lemma CreatePreserves(files: seq<FileItem>, currentId: string, currentContent: string, item: FileItem)
    requires Consistent(files, currentId, currentContent)
    requires item.id != "" && item.id !in Ids(files)
    ensures Consistent(files + [item], item.id, item.content)
  {
    var r := files + [item];
    assert forall i :: 0 <= i < |files| ==> files[i].id != item.id;
    FindUnique(r, |files|);
  }

  /** The state after a delete: the filtered list, and the selection moved to its first file when the current one went. */
  function AfterDelete(files: seq<FileItem>, currentId: string, currentContent: string, id: string): (r: (seq<FileItem>, string, string))
    ensures r.0 == Without(files, id)
    ensures id != currentId ==> r.1 == currentId && r.2 == currentContent
    ensures id == currentId && r.0 != [] ==> r.1 == r.0[0].id && r.2 == r.0[0].content
    ensures id == currentId && r.0 == [] ==> r.1 == "" && r.2 == ""
  {
    var filtered := Without(files, id);
    if id == currentId then
      if filtered != [] then (filtered, filtered[0].id, filtered[0].content) else (filtered, "", "")
    else (filtered, currentId, currentContent)
  }

  /** Deleting keeps the invariant, whichever file goes. */
  lemma DeletePreserves(files: seq<FileItem>, currentId: string, currentContent: string, id: string)
    requires Consistent(files, currentId, currentContent)
    ensures var r := AfterDelete(files, currentId, currentContent, id); Consistent(r.0, r.1, r.2)
  {
    var r := Without(files, id);
    WithoutKeepsIds(files, id);
    if id == currentId {
      if r != [] {
        FindUnique(r, 0);
      } else {
        assert "" !in Ids(r);
      }
    } else if Find(r, currentId).Some? {
      var f := Find(r, currentId).value;
      assert f in files;
      var i :| 0 <= i < |files| && files[i] == f;
      FindUnique(files, i);
    }
  }

  /** The state of `useFileManager`, updated in place by its callbacks. */
  class FileStore {
    var files: seq<FileItem>
    var currentFileId: string
    var currentContent: string

    ghost predicate Valid()
      reads this
    {
      Consistent(files, currentFileId, currentContent)
    }

    /** One example file, current, with its content in the editor. */
    constructor (now: int)
      ensures files == [FileItem("1", "example.tex", EXAMPLE_CONTENT, Tex, now, now)]
      ensures currentFileId == "1" && currentContent == EXAMPLE_CONTENT
      ensures Valid()
    {
      files := [FileItem("1", "example.tex", EXAMPLE_CONTENT, Tex, now, now)];
      currentFileId := "1";
      currentContent := EXAMPLE_CONTENT;
      new;
      SingleFileConsistent(files[0]);
    }

    /** The record of the current file, if the list holds it; its content is the editor's text. */
    function CurrentFile(): (r: Option<FileItem>)
      reads this
      ensures r.Some? <==> currentFileId in Ids(files)
      ensures r.Some? ==> r.value in files && r.value.id == currentFileId
      ensures Valid() && r.Some? ==> r.value.content == currentContent
    {
      Find(files, currentFileId)
    }

    /** Appends a new `tex` file with a fresh id and makes it current. */
    method CreateFile(id: string, name: string, content: string, now: int)
      requires Valid()
      requires id != "" && id !in Ids(files)
      modifies this
      ensures files == old(files) + [FileItem(id, name, content, Tex, now, now)]
      ensures currentFileId == id && currentContent == content
      ensures Valid()
    {
      var item := FileItem(id, name, content, Tex, now, now);
      CreatePreserves(files, currentFileId, currentContent, item);
      files := files + [item];
      currentFileId := id;
      currentContent := content;
    }

    /** Removes the files with the id; when the current file goes, the first remaining file becomes current. */
    method DeleteFile(id: string)
      requires Valid()
      modifies this
      ensures (files, currentFileId, currentContent) == AfterDelete(old(files), old(currentFileId), old(currentContent), id)
      ensures Valid()
    {
      DeletePreserves(files, currentFileId, currentContent, id);
      var filtered := Without(files, id);
      if id == currentFileId {
        if filtered != [] {
          currentFileId := filtered[0].id;
          currentContent := filtered[0].content;
        } else {
          currentFileId := "";
          currentContent := "";
        }
      }
      files := filtered;
    }

    /** Renames the file with the id; nothing else changes. */
    method RenameFile(id: string, newName: string, now: int)
      requires Valid()
      modifies this
      ensures files == Renamed(old(files), id, newName, now)
      ensures currentFileId == old(currentFileId) && currentContent == old(currentContent)
      ensures Valid()
    {
      RenamePreserves(files, currentFileId, currentContent, id, newName, now);
      files := Renamed(files, id, newName, now);
    }

    /** Saves the editor text into the file being left, then loads the chosen file. */
    method SelectFile(file: FileItem, now: int)
      requires Valid()
      modifies this
      ensures old(currentFileId) != "" && old(currentFileId) != file.id ==>
        files == WithContent(old(files), old(currentFileId), old(currentContent), now)
      ensures old(currentFileId) == "" || old(currentFileId) == file.id ==> files == old(files)
      ensures currentFileId == file.id && currentContent == file.content
      ensures file in old(files) ==> Valid()
    {
      if file in files {
        SelectPreserves(files, currentFileId, currentContent, file, now);
      }
      if currentFileId != "" && currentFileId != file.id {
        files := WithContent(files, currentFileId, currentContent, now);
      }
      currentFileId := file.id;
      currentContent := file.content;
    }

    /** Sets the editor text and, when a file is current, that file's content. */
    method UpdateCurrentContent(content: string, now: int)
      requires Valid()
      modifies this
      ensures currentContent == content && currentFileId == old(currentFileId)
      ensures files == if currentFileId != "" then WithContent(old(files), currentFileId, content, now) else old(files)
      ensures Valid()
    {
      UpdatePreserves(files, currentFileId, currentContent, content, now);
      currentContent := content;
      if currentFileId != "" {
        files := WithContent(files, currentFileId, content, now);
      }
    }
  }
}
