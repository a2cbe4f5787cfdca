/**
 * The document viewer: three embeddings of the same PDF, cycled by a button,
 * with a loading flag and an error flag driven by the frame's events.
 */
module PdfViewer {
  datatype Viewer = Native | Google | Mozilla

  datatype ViewerUi = ViewerUi(viewer: Viewer, isLoading: bool, hasError: bool)

  const GooglePrefix := "https://docs.google.com/viewer?url="
  const GoogleSuffix := "&embedded=true"
  const MozillaPrefix := "https://mozilla.github.io/pdf.js/web/viewer.html?file="

  /** The state on mount: the browser's own viewer, loading, no error. */
  function Initial(): (r: ViewerUi)
    ensures r.viewer == Native && r.isLoading && !r.hasError
  {
    ViewerUi(Native, true, false)
  }

  /** The next viewer in the cycle native, Google, Mozilla. */
  function Next(v: Viewer): (r: Viewer)
    ensures r != v
  {
    match v
    case Native => Google
    case Google => Mozilla
    case Mozilla => Native
  }

  /** "Cambiar visor": the next viewer, loading again, error cleared. */
  function SwitchViewer(ui: ViewerUi): (r: ViewerUi)
    ensures r.viewer == Next(ui.viewer) && r.isLoading && !r.hasError
  {
    ViewerUi(Next(ui.viewer), true, false)
  }

  /** The frame loaded: neither loading nor failed. */
  function HandleLoad(ui: ViewerUi): (r: ViewerUi)
    ensures r.viewer == ui.viewer && !r.isLoading && !r.hasError
  {
    ui.(isLoading := false, hasError := false)
  }

  /** The frame failed: no longer loading, failed. */
  function HandleError(ui: ViewerUi): (r: ViewerUi)
    ensures r.viewer == ui.viewer && !r.isLoading && r.hasError
  {
    ui.(isLoading := false, hasError := true)
  }

  /** Three switches bring back the viewer, with loading set and the error cleared. */
  lemma ThreeSwitchesReturn(ui: ViewerUi)
    ensures SwitchViewer(SwitchViewer(SwitchViewer(ui))) == ui.(isLoading := true, hasError := false)
  {
  }

  /** The three viewers are visited in turn: one or two switches never come back. */
  lemma FewerSwitchesDoNotReturn(v: Viewer)
    ensures Next(v) != v && Next(Next(v)) != v
  {
  }

  datatype Event = Switch | Load | Fail

  function Step(ui: ViewerUi, e: Event): ViewerUi {
    match e
    case Switch => SwitchViewer(ui)
    case Load => HandleLoad(ui)
    case Fail => HandleError(ui)
  }

  function Replay(ui: ViewerUi, events: seq<Event>): ViewerUi
    decreases |events|
  {
    if events == [] then ui else Replay(Step(ui, events[0]), events[1..])
  }

  /** From the initial state, no sequence of events makes the viewer loading and failed at once. */
  lemma {:induction false} NeverLoadingAndFailed(ui: ViewerUi, events: seq<Event>)
    requires !(ui.isLoading && ui.hasError)
    ensures !(Replay(ui, events).isLoading && Replay(ui, events).hasError)
    decreases |events|
  {
    if events != [] {
      NeverLoadingAndFailed(Step(ui, events[0]), events[1..]);
    }
  }

  /**
   * The frame's address. `encode` stands for `encodeURIComponent`, whose
   * escaping is not modelled. The native viewer shows the address itself.
   */
  function ViewerUrl(viewer: Viewer, pdfUrl: string, encode: string -> string): (r: string)
    ensures viewer == Native ==> r == pdfUrl
    ensures viewer == Google ==> r == GooglePrefix + encode(pdfUrl) + GoogleSuffix
    ensures viewer == Mozilla ==> r == MozillaPrefix + encode(pdfUrl)
  {
    match viewer
    case Google => GooglePrefix + encode(pdfUrl) + GoogleSuffix
    case Mozilla => MozillaPrefix + encode(pdfUrl)
    case Native => pdfUrl
  }

  /** The embedded viewers' addresses give the encoded document back after their fixed prefix. */
  lemma EmbeddedUrlsCarryDocument(pdfUrl: string, encode: string -> string)
    ensures var g := ViewerUrl(Google, pdfUrl, encode);
            g[..|GooglePrefix|] == GooglePrefix && g[|GooglePrefix|..|g| - |GoogleSuffix|] == encode(pdfUrl)
    ensures var m := ViewerUrl(Mozilla, pdfUrl, encode);
            m[..|MozillaPrefix|] == MozillaPrefix && m[|MozillaPrefix|..] == encode(pdfUrl)
  {
  }

  /** The label next to the title. */
  function Label(viewer: Viewer): (r: string)
    ensures r in {"Nativo", "Google Docs", "Mozilla PDF.js"}
    ensures r == "Nativo" <==> viewer == Native
    ensures r == "Google Docs" <==> viewer == Google
    ensures r == "Mozilla PDF.js" <==> viewer == Mozilla
  {
    match viewer
    case Native => "Nativo"
    case Google => "Google Docs"
    case Mozilla => "Mozilla PDF.js"
  }

  /** Each viewer has its own label. */
  lemma LabelsDistinct(v: Viewer, w: Viewer)
    ensures Label(v) == Label(w) <==> v == w
  {
  }
}
