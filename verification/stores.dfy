/**
 * The two editor stores: the template store (src/store/store.ts) holding the
 * template, the JSON context, the rendered document and the head elements,
 * and the function store (src/store/functionStore.ts) holding the user's
 * Twig functions and the selected one. Each setter overwrites its own field.
 */
module Stores {
  import opened Wrappers

  /** `HtmlHeadElements` */
  datatype HtmlHead = HtmlHead(
    title: string,
    metaDescription: string,
    metaKeywords: string,
    viewport: string,
    customHead: string)

  /** `Partial<HtmlHeadElements>`: a field is present (`Some`) or absent (`None`). */
  datatype HeadPatch = HeadPatch(
    title: Option<string>,
    metaDescription: Option<string>,
    metaKeywords: Option<string>,
    viewport: Option<string>,
    customHead: Option<string>)

  const NoChange: HeadPatch := HeadPatch(None, None, None, None, None)

  /** The patch that sets every field of `head`. */
  function FullPatch(head: HtmlHead): HeadPatch {
    HeadPatch(Some(head.title), Some(head.metaDescription), Some(head.metaKeywords),
              Some(head.viewport), Some(head.customHead))
  }

  /** One field of an object spread: the patch's value when it has the key. */
  function Override(v: string, p: Option<string>): string {
    if p.Some? then p.value else v
  }

  /** `{ ...state.htmlHead, ...htmlHead }` (lines 51-54). */
  function Merge(head: HtmlHead, patch: HeadPatch): HtmlHead {
    HtmlHead(
      Override(head.title, patch.title),
      Override(head.metaDescription, patch.metaDescription),
      Override(head.metaKeywords, patch.metaKeywords),
      Override(head.viewport, patch.viewport),
      Override(head.customHead, patch.customHead))
  }

  /** `{ ...p, ...q }` on two patches: a key of `q` wins, otherwise `p`'s key, if any. */
  function CombineField(a: Option<string>, b: Option<string>): Option<string> {
    if b.Some? then b else a
  }

  function Combine(p: HeadPatch, q: HeadPatch): HeadPatch {
    HeadPatch(
      CombineField(p.title, q.title),
      CombineField(p.metaDescription, q.metaDescription),
      CombineField(p.metaKeywords, q.metaKeywords),
      CombineField(p.viewport, q.viewport),
      CombineField(p.customHead, q.customHead))
  }

  /** Two `setHtmlHead` calls in a row are one call with the later patch spread over the earlier. */
  lemma MergeCompose(head: HtmlHead, p: HeadPatch, q: HeadPatch)
    ensures Merge(Merge(head, p), q) == Merge(head, Combine(p, q))
  {
  }

  /** Every key the patch has already holds the head's value. */
  predicate Agrees(head: HtmlHead, patch: HeadPatch) {
    && (patch.title.Some? ==> patch.title.value == head.title)
    && (patch.metaDescription.Some? ==> patch.metaDescription.value == head.metaDescription)
    && (patch.metaKeywords.Some? ==> patch.metaKeywords.value == head.metaKeywords)
    && (patch.viewport.Some? ==> patch.viewport.value == head.viewport)
    && (patch.customHead.Some? ==> patch.customHead.value == head.customHead)
  }

  /** A patch leaves the head as it is exactly when it agrees with it on every key it has. */
  lemma MergeUnchanged(head: HtmlHead, patch: HeadPatch)
    ensures Merge(head, patch) == head <==> Agrees(head, patch)
  {
  }

  /** An empty patch changes nothing, a full patch replaces everything, and merging twice is merging once. */
  lemma MergeLaws(head: HtmlHead, other: HtmlHead, patch: HeadPatch)
    ensures Merge(head, NoChange) == head
    ensures Merge(head, FullPatch(other)) == other
    ensures Merge(Merge(head, patch), patch) == Merge(head, patch)
  {
  }

  // ------------------------------------------------------------ initial values (lines 23-47)

  const InitialHtml: string :=
    "<header>\n    <h1>Welcome to {{name}}</h1>\n    <p>Today is: {{now() | dateFormat}}</p>\n</header>\n"
    + "<main>\n    <div class=\"content\">\n        <h2>About {{name}}</h2>\n"
    + "        <p>This page demonstrates the HTML head integration with Twig templating.</p>\n"
    + "        <p>The page title, meta description, and other head elements are now configurable!</p>\n"
    + "    </div>\n</main>\n<footer>\n    <p>&copy; {{now() | year}} - Built with Twig HTML Editor</p>\n</footer>"

  const InitialJson: string := "{\"name\": \"Twig HTML Editor\"}"

  const InitialHead: HtmlHead := HtmlHead(
    "Twig HTML Editor - Dynamic HTML with Head Elements",
    "A powerful HTML editor with Twig templating support and configurable head elements",
    "twig, html, editor, templating, meta tags",
    "width=device-width, initial-scale=1.0",
    "<meta charset=\"UTF-8\">\n<style>\n  body { font-family: Arial, sans-serif; margin: 0; padding: 20px; }\n"
    + "  .content { max-width: 800px; margin: 0 auto; }\n</style>")

  /** The template store. It declares no `twigExtension` field and no setter for one. */
  class EditorStore {
    var html: string
    var json: string
    var renderedHtml: string
    var htmlHead: HtmlHead

    constructor()
      ensures html == InitialHtml && json == InitialJson && renderedHtml == [] && htmlHead == InitialHead
    {
      html := InitialHtml;
      json := InitialJson;
      renderedHtml := [];
      htmlHead := InitialHead;
    }

    method SetHtml(v: string)
      modifies this
      ensures html == v
      ensures json == old(json) && renderedHtml == old(renderedHtml) && htmlHead == old(htmlHead)
    {
      html := v;
    }

    method SetJson(v: string)
      modifies this
      ensures json == v
      ensures html == old(html) && renderedHtml == old(renderedHtml) && htmlHead == old(htmlHead)
    {
      json := v;
    }

    method SetRenderedHtml(v: string)
      modifies this
      ensures renderedHtml == v
      ensures html == old(html) && json == old(json) && htmlHead == old(htmlHead)
    {
      renderedHtml := v;
    }

    method SetHtmlHead(patch: HeadPatch)
      modifies this
      ensures htmlHead == Merge(old(htmlHead), patch)
      ensures html == old(html) && json == old(json) && renderedHtml == old(renderedHtml)
    {
      htmlHead := Merge(htmlHead, patch);
    }
  }

  // ------------------------------------------------------------ the function store

  /** `ITwigFunctions`; the source's `function` field is called `code` here. */
  datatype FunctionItem = FunctionItem(id: string, name: string, code: string)

  class FunctionStore {
    var twigFunctions: seq<FunctionItem>
    var selectedFunction: Option<FunctionItem>

    /** The list starts empty and nothing is selected (lines 17-18). */
    constructor()
      ensures twigFunctions == [] && selectedFunction == None
    {
      twigFunctions := [];
      selectedFunction := None;
    }

    method SetTwigFunctions(fs: seq<FunctionItem>)
      modifies this
      ensures twigFunctions == fs && selectedFunction == old(selectedFunction)
    {
      twigFunctions := fs;
    }

    method SetSelectedFunction(f: Option<FunctionItem>)
      modifies this
      ensures selectedFunction == f && twigFunctions == old(twigFunctions)
    {
      selectedFunction := f;
    }
  }
}
