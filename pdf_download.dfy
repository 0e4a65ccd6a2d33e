/**
 * The PDF export button: the blank-content check, the in-flight guard, the
 * HTML handed to the PDF renderer and the clean-up when the renderer finishes.
 */
module PdfDownload {
  import opened Wrappers
  import opened Text
  import opened LatexPreview

  const DEFAULT_FILE_NAME: string := "document"
  const PREVIEW_OPEN: string := "<div class=\"latex-preview\">\n        "
  const PREVIEW_CLOSE: string := "\n      </div>"

  /** The converted body inside the preview container. */
  function Wrapped(body: string): (r: string)
    ensures |r| == |PREVIEW_OPEN| + |body| + |PREVIEW_CLOSE|
    ensures PREVIEW_OPEN <= r
  {
    PREVIEW_OPEN + body + PREVIEW_CLOSE
  }

  /** The converted body can be read back out of the container. */
  lemma WrappedRoundTrip(body: string)
    ensures Wrapped(body)[|PREVIEW_OPEN|..|Wrapped(body)| - |PREVIEW_CLOSE|] == body
  {
    var r := Wrapped(body);
    assert r[|PREVIEW_OPEN|..|r| - |PREVIEW_CLOSE|] == (PREVIEW_OPEN + body + PREVIEW_CLOSE)[|PREVIEW_OPEN|..|PREVIEW_OPEN| + |body|];
  }

  /** `${fileName}.pdf`. */
  function PdfFileName(fileName: string): (r: string)
    ensures |r| == |fileName| + 4
    ensures EndsWith(r, ".pdf") && r[..|fileName|] == fileName
  {
    fileName + ".pdf"
  }

  /** What is handed to the PDF renderer: the output file name and the HTML to render. */
  datatype ExportJob = ExportJob(fileName: string, html: string)

  /** The export job for a document: the preview's conversion, wrapped; so export and preview show the same content. */
  function ExportFor(fileName: string, content: string, today: string, render: Renderer): (job: ExportJob)
    ensures |job.html| == |PREVIEW_OPEN| + |ProcessLaTeXContent(content, today, render)| + |PREVIEW_CLOSE|
    ensures PREVIEW_OPEN <= job.html
    ensures job.html[|PREVIEW_OPEN|..|job.html| - |PREVIEW_CLOSE|] == ProcessLaTeXContent(content, today, render)
    ensures EndsWith(job.fileName, ".pdf")
  {
    WrappedRoundTrip(ProcessLaTeXContent(content, today, render));
    ExportJob(PdfFileName(fileName), Wrapped(ProcessLaTeXContent(content, today, render)))
  }

  /** The export button's state. */
  class Exporter {
    const fileName: string
    var isGenerating: bool
    var tempAttached: bool

    constructor (fileName: string)
      ensures this.fileName == fileName && !isGenerating && !tempAttached
    {
      this.fileName := fileName;
      isGenerating := false;
      tempAttached := false;
    }

    /**
     * A request with blank content, or one made while an export is in flight,
     * changes nothing and yields no job (the blank check comes first). Any
     * other request marks an export in flight and yields its job.
     */
    method HandleDownload(content: string, today: string, render: Renderer) returns (job: Option<ExportJob>)
      modifies this
      ensures IsBlank(content) || old(isGenerating) ==> job == None && isGenerating == old(isGenerating)
      ensures !IsBlank(content) && !old(isGenerating) ==> job == Some(ExportFor(fileName, content, today, render)) && isGenerating
      ensures tempAttached == old(tempAttached)
    {
      if Trim(content) == [] {
        return None;
      }
      if isGenerating {
        return None;
      }
      isGenerating := true;
      job := Some(ExportFor(fileName, content, today, render));
    }

    /** The temporary element holding the HTML is attached to the page. */
    method AttachTemp()
      modifies this
      ensures tempAttached && isGenerating == old(isGenerating)
    {
      tempAttached := true;
    }

    /** The renderer succeeded or failed: either way the element is removed if attached and the flag cleared. */
    method Finish(succeeded: bool)
      modifies this
      ensures !tempAttached && !isGenerating
    {
      if tempAttached {
        tempAttached := false;
      }
      isGenerating := false;
    }
  }

  /** Two requests in a row: the second, made while the first is in flight, is ignored. */
  method SecondRequestIgnored(content: string, today: string, render: Renderer) returns (first: Option<ExportJob>, second: Option<ExportJob>)
    requires !IsBlank(content)
    ensures first == Some(ExportFor(DEFAULT_FILE_NAME, content, today, render))
    ensures first.value.fileName == "document.pdf"
    ensures second == None
  {
    var e := new Exporter(DEFAULT_FILE_NAME);
    first := e.HandleDownload(content, today, render);
    second := e.HandleDownload(content, today, render);
  }
}
