/**
 * Sharing the editor state through the URL (src/hook/useUrlState.ts): only
 * the fields that differ from the defaults are kept (`optimizeState`), the
 * rest is filled back in on load (`restoreState`), and the result travels in
 * the hash as `#state=<encoding>`. The compression and JSON steps are
 * parameters: `compress` stands for `JSON.stringify` then
 * `LZString.compressToEncodedURIComponent`, `decompress` for the reverse,
 * `None` when either step fails.
 */
module UrlSharing {
  import opened Wrappers
  import opened Text
  import opened Stores

  /** `UrlState` (lines 6-11). */
  datatype UrlState = UrlState(html: string, json: string, htmlHead: HtmlHead, twigExtension: string)

  /** `Partial<UrlState>`: each field present (`Some`) or absent. */
  datatype Optimized = Optimized(
    html: Option<string>,
    json: Option<string>,
    htmlHead: Option<HeadPatch>,
    twigExtension: Option<string>)

  const Nothing: Optimized := Optimized(None, None, None, None)

  // ------------------------------------------------------------ the defaults (lines 32-72, 101-128)

  const DefaultHtml: string :=
    "<header>\n    <h1>Welcome to {{name}}</h1>\n    <p>Today is: {{now() | dateFormat}}</p>\n</header>\n"
    + "<main>\n    <div class=\"content\">\n        <h2>About {{name}}</h2>\n"
    + "        <p>This page demonstrates the HTML head integration with Twig templating.</p>\n"
    + "        <p>The page title, meta description, and other head elements are now configurable!</p>\n"
    + "    </div>\n</main>\n<footer>\n    <p>&copy; {{now() | year}} - Built with Twig HTML Editor</p>\n</footer>"

  const DefaultJson: string := "{\"name\": \"Twig HTML Editor\"}"

  const DefaultHead: HtmlHead := HtmlHead(
    "Twig HTML Editor - Dynamic HTML with Head Elements",
    "A powerful HTML editor with Twig templating support and configurable head elements",
    "twig, html, editor, templating, meta tags",
    "width=device-width, initial-scale=1.0",
    "<meta charset=\"UTF-8\">\n<style>\n  body { font-family: Arial, sans-serif; margin: 0; padding: 20px; }\n"
    + "  .content { max-width: 800px; margin: 0 auto; }\n</style>")

  const DefaultTwigExtension: string := "(Twig) => {}"

  const DefaultState: UrlState := UrlState(DefaultHtml, DefaultJson, DefaultHead, DefaultTwigExtension)

  /** The store's template, context and head start at the defaults the sharing
      code assumes, so none of them is kept by `optimizeState`. */
  lemma StoreStartsAtDefaults()
    ensures InitialHtml == DefaultHtml && InitialJson == DefaultJson && InitialHead == DefaultHead
    ensures Optimize(UrlState(InitialHtml, InitialJson, InitialHead, DefaultTwigExtension)) == Nothing
  {
  }

  // ------------------------------------------------------------ optimizeState (lines 26-96)

  /** A field is kept only when it differs from its default. */
  function Diff(v: string, default: string): Option<string> {
    if v != default then Some(v) else None
  }

  function HeadDiff(head: HtmlHead): HeadPatch {
    HeadPatch(
      Diff(head.title, DefaultHead.title),
      Diff(head.metaDescription, DefaultHead.metaDescription),
      Diff(head.metaKeywords, DefaultHead.metaKeywords),
      Diff(head.viewport, DefaultHead.viewport),
      Diff(head.customHead, DefaultHead.customHead))
  }

  function Optimize(state: UrlState): Optimized {
    var headDiff := HeadDiff(state.htmlHead);
    Optimized(
      Diff(state.html, DefaultHtml),
      Diff(state.json, DefaultJson),
      if headDiff != NoChange then Some(headDiff) else None,
      Diff(state.twigExtension, DefaultTwigExtension))
  }

  /** The `headDiff` object of lines 74-89, built field by field. */
  method HeadDiffOf(head: HtmlHead) returns (headDiff: HeadPatch)
    ensures headDiff == HeadDiff(head)
  {
    headDiff := NoChange;
    if head.title != DefaultHead.title {
      headDiff := headDiff.(title := Some(head.title));
    }
    if head.metaDescription != DefaultHead.metaDescription {
      headDiff := headDiff.(metaDescription := Some(head.metaDescription));
    }
    if head.metaKeywords != DefaultHead.metaKeywords {
      headDiff := headDiff.(metaKeywords := Some(head.metaKeywords));
    }
    if head.viewport != DefaultHead.viewport {
      headDiff := headDiff.(viewport := Some(head.viewport));
    }
    if head.customHead != DefaultHead.customHead {
      headDiff := headDiff.(customHead := Some(head.customHead));
    }
  }

  /** `optimizeState`: fields are added one by one to an empty object. */
  method OptimizeState(state: UrlState) returns (optimized: Optimized)
    ensures optimized == Optimize(state)
  {
    optimized := Nothing;
    if state.html != DefaultHtml {
      optimized := optimized.(html := Some(state.html));
    }
    if state.twigExtension != DefaultTwigExtension {
      optimized := optimized.(twigExtension := Some(state.twigExtension));
    }
    if state.json != DefaultJson {
      optimized := optimized.(json := Some(state.json));
    }
    var headDiff := HeadDiffOf(state.htmlHead);
    if headDiff != NoChange {
      optimized := optimized.(htmlHead := Some(headDiff));
    }
  }

  /**
   * Each field is present exactly when it differs from its default, and then
   * holds the state's value; the head is present exactly when some head field
   * differs, and then holds only the differing fields.
   */
  lemma OptimizeKeepsDifferences(state: UrlState)
    ensures Optimize(state).html.Some? <==> state.html != DefaultHtml
    ensures Optimize(state).json.Some? <==> state.json != DefaultJson
    ensures Optimize(state).twigExtension.Some? <==> state.twigExtension != DefaultTwigExtension
    ensures Optimize(state).htmlHead.Some? <==> state.htmlHead != DefaultHead
    ensures Optimize(state).html.Some? ==> Optimize(state).html.value == state.html
    ensures Optimize(state).json.Some? ==> Optimize(state).json.value == state.json
    ensures Optimize(state).twigExtension.Some? ==> Optimize(state).twigExtension.value == state.twigExtension
    ensures Optimize(state).htmlHead.Some? ==>
      Merge(DefaultHead, Optimize(state).htmlHead.value) == state.htmlHead
    ensures Optimize(state) == Nothing <==> state == DefaultState
  {
    var h := state.htmlHead;
    if h != DefaultHead {
      assert HeadDiff(h) != NoChange by {
        if h.title == DefaultHead.title && h.metaDescription == DefaultHead.metaDescription
           && h.metaKeywords == DefaultHead.metaKeywords && h.viewport == DefaultHead.viewport {
          assert h.customHead != DefaultHead.customHead;
        }
      }
    }
  }

  // ------------------------------------------------------------ restoreState (lines 99-150)

  /** `value || default`: an absent or empty field takes the default. */
  function OrDefault(value: Option<string>, default: string): string {
    if value.Some? && value.value != [] then value.value else default
  }

  function PatchOf(optimized: Optimized): HeadPatch {
    if optimized.htmlHead.Some? then optimized.htmlHead.value else NoChange
  }

  function RestoreState(optimized: Optimized): UrlState {
    var p := PatchOf(optimized);
    UrlState(
      OrDefault(optimized.html, DefaultHtml),
      OrDefault(optimized.json, DefaultJson),
      HtmlHead(
        OrDefault(p.title, DefaultHead.title),
        OrDefault(p.metaDescription, DefaultHead.metaDescription),
        OrDefault(p.metaKeywords, DefaultHead.metaKeywords),
        OrDefault(p.viewport, DefaultHead.viewport),
        OrDefault(p.customHead, DefaultHead.customHead)),
      OrDefault(optimized.twigExtension, DefaultTwigExtension))
  }

  /** Every string field of the state is non-empty. */
  predicate Filled(state: UrlState) {
    state.html != [] && state.json != [] && state.twigExtension != []
    && state.htmlHead.title != [] && state.htmlHead.metaDescription != []
    && state.htmlHead.metaKeywords != [] && state.htmlHead.viewport != [] && state.htmlHead.customHead != []
  }

  /** Restoring always gives a filled state; with nothing to restore it gives the defaults. */
  lemma RestoreFills(optimized: Optimized)
    ensures Filled(RestoreState(optimized))
    ensures RestoreState(Nothing) == DefaultState
  {
  }

  /** Restoring what was optimized gives the state back when every field is non-empty. */
  lemma RoundTrip(state: UrlState)
    requires Filled(state)
    ensures RestoreState(Optimize(state)) == state
  {
    OptimizeKeepsDifferences(state);
  }

  /** ... and only then: an emptied template comes back as the default template. */
  lemma EmptyFieldLost(state: UrlState)
    requires state.html == []
    ensures RestoreState(Optimize(state)).html == DefaultHtml != state.html
  {
  }

  // ------------------------------------------------------------ encodeState, decodeState (lines 153-206)

  /** `encodeState`: nothing to share gives the empty string (lines 162-164). */
  function Encode(state: UrlState, compress: Optimized -> string): string {
    var optimized := Optimize(state);
    if optimized == Nothing then [] else compress(optimized)
  }

  /** `decodeState`: the empty string gives the defaults (lines 184-186); a failure gives null. */
  function Decode(encoded: string, decompress: string -> Option<Optimized>): Option<UrlState> {
    if encoded == [] then Some(RestoreState(Nothing))
    else match decompress(encoded)
      case Some(optimized) => Some(RestoreState(optimized))
      case None => None
  }

  /** The default state encodes to nothing, and nothing decodes to the default state. */
  lemma DefaultsEncodeEmpty(compress: Optimized -> string, decompress: string -> Option<Optimized>)
    ensures Encode(DefaultState, compress) == []
    ensures Decode([], decompress) == Some(DefaultState)
  {
    OptimizeKeepsDifferences(DefaultState);
  }

  /**
   * With a codec that gives back what it packed and never packs to the empty
   * string, decoding an encoding gives the state back when every field is
   * non-empty.
   */
  lemma EncodeDecode(state: UrlState, compress: Optimized -> string, decompress: string -> Option<Optimized>)
    requires Filled(state)
    requires forall o :: compress(o) != [] && decompress(compress(o)) == Some(o)
    ensures Decode(Encode(state, compress), decompress) == Some(state)
  {
    OptimizeKeepsDifferences(state);
    RoundTrip(state);
  }

  // ------------------------------------------------------------ the hash (lines 222, 232-233)

  const HashPrefix: string := "#state="

  /** The hash written for an encoding. */
  function HashFor(encoded: string): string {
    if encoded == [] then [] else HashPrefix + encoded
  }

  /** The encoding read from a hash, when it carries one. */
  function StateParam(hash: string): Option<string> {
    if StartsWith(hash, HashPrefix) then Some(hash[7..]) else None
  }

  /** Reading inverts writing for every non-empty encoding; an empty encoding writes no hash. */
  lemma HashRoundTrip(encoded: string)
    ensures encoded != [] ==> StateParam(HashFor(encoded)) == Some(encoded)
    ensures encoded == [] ==> HashFor(encoded) == [] && StateParam(HashFor(encoded)) == None
  {
    if encoded != [] {
      assert (HashPrefix + encoded)[..7] == HashPrefix;
      assert (HashPrefix + encoded)[7..] == encoded;
    }
  }

  // ------------------------------------------------------------ generateShareableUrl (lines 209-225)

  /**
   * What `generateShareableUrl` encodes from the store. The store defines no
   * `twigExtension` (src/store/store.ts:11-20), so that field is `undefined`.
   * It differs from the default, so `optimizeState` sets the key to
   * `undefined` (lines 53-54) and `Object.keys` counts it (line 162): the empty
   * shortcut never applies. `JSON.stringify` leaves an `undefined` member out,
   * so what is compressed is the optimized template, context and head with no
   * extension member, just as for an extension at its default.
   */
  function EncodeStoreState(html: string, json: string, head: HtmlHead, compress: Optimized -> string): string {
    compress(Optimize(UrlState(html, json, head, DefaultTwigExtension)))
  }

  /** The link of a store holding these values: the hash of their encoding. */
  function ShareHash(html: string, json: string, head: HtmlHead, compress: Optimized -> string): string {
    HashFor(EncodeStoreState(html, json, head, compress))
  }

  /**
   * A fresh editor does not share the empty hash: it shares the compression of
   * `{}`, and that hash loads back as the default state.
   */
  lemma FreshEditorShares(compress: Optimized -> string, decompress: string -> Option<Optimized>)
    requires forall o :: compress(o) != [] && decompress(compress(o)) == Some(o)
    ensures EncodeStoreState(InitialHtml, InitialJson, InitialHead, compress) == compress(Nothing) != []
    ensures ShareHash(InitialHtml, InitialJson, InitialHead, compress) == HashPrefix + compress(Nothing)
    ensures Loaded(ShareHash(InitialHtml, InitialJson, InitialHead, compress), decompress) == Some(DefaultState)
  {
    StoreStartsAtDefaults();
    var e := compress(Nothing);
    HashRoundTrip(e);
    assert Decode(e, decompress) == Some(RestoreState(Nothing));
    RestoreFills(Nothing);
  }

  // ------------------------------------------------------------ loadStateFromUrl (lines 228-252)

  /** The state a hash decodes to, if any. */
  function Loaded(hash: string, decompress: string -> Option<Optimized>): Option<UrlState> {
    match StateParam(hash)
    case Some(encoded) => Decode(encoded, decompress)
    case None => None
  }

  /**
   * `loadStateFromUrl` as written: after the three setters the call of
   * `setTwigExtension`, which the store does not provide, throws; the catch
   * returns false. So the state is loaded and false is reported.
   */
  method LoadStateAsWritten(store: EditorStore, hash: string, decompress: string -> Option<Optimized>)
    returns (loaded: bool)
    modifies store
    ensures !loaded
    ensures Loaded(hash, decompress).Some? ==>
      var st := Loaded(hash, decompress).value;
      store.html == st.html && store.json == st.json && store.htmlHead == st.htmlHead
    ensures Loaded(hash, decompress).None? ==>
      store.html == old(store.html) && store.json == old(store.json) && store.htmlHead == old(store.htmlHead)
    ensures store.renderedHtml == old(store.renderedHtml)
  {
    loaded := false;
    match StateParam(hash)
    case None =>
    case Some(encoded) =>
      match Decode(encoded, decompress)
      case None =>
      case Some(st) =>
        store.SetHtml(st.html);
        store.SetJson(st.json);
        store.SetHtmlHead(FullPatch(st.htmlHead));
        MergeLaws(old(store.htmlHead), st.htmlHead, NoChange);
        // `setTwigExtension(...)` is not a function here: the throw lands in the catch
        loaded := false;
  }

  /** A hash carrying the empty encoding decodes to the default state, yet the load as written reports false. */
  lemma EmptyEncodingLoads(decompress: string -> Option<Optimized>)
    ensures Loaded(HashPrefix, decompress) == Some(DefaultState)
  {
    assert StartsWith(HashPrefix, HashPrefix);
    assert HashPrefix[7..] == [];
  }

  /**
   * `loadStateFromUrl` as intended: on a decoded state the three fields are
   * set, the twig extension is handed back (the store has no field for it),
   * and true is reported; otherwise nothing changes and false is reported.
   */
  method LoadStateFromUrl(store: EditorStore, hash: string, decompress: string -> Option<Optimized>)
    returns (loaded: bool, twigExtension: Option<string>)
    modifies store
    ensures loaded <==> Loaded(hash, decompress).Some?
    ensures loaded ==>
      var st := Loaded(hash, decompress).value;
      store.html == st.html && store.json == st.json && store.htmlHead == st.htmlHead
      && twigExtension == Some(st.twigExtension)
    ensures !loaded ==>
      store.html == old(store.html) && store.json == old(store.json) && store.htmlHead == old(store.htmlHead)
      && twigExtension == None
    ensures store.renderedHtml == old(store.renderedHtml)
  {
    loaded, twigExtension := false, None;
    match StateParam(hash)
    case None =>
    case Some(encoded) =>
      match Decode(encoded, decompress)
      case None =>
      case Some(st) =>
        store.SetHtml(st.html);
        store.SetJson(st.json);
        store.SetHtmlHead(FullPatch(st.htmlHead));
        MergeLaws(old(store.htmlHead), st.htmlHead, NoChange);
        twigExtension := Some(st.twigExtension);
        loaded := true;
  }
}
