# Twig HTML editor: a verified model of its core

The Twig HTML editor is a browser application. A user writes an HTML template
with Twig syntax (`{% %}` statements, `{{ }}` expressions, `{# #}` comments)
and a JSON context, and the editor renders the template into a preview
document. The core modelled here is the logic behind that:

- the serializer pair (`src/utils/SerializeUtils.ts`). It shields the Twig
  spans behind `___TWIG_BLOCK_<n>___` placeholders, minifies and
  JSON-string-escapes the HTML around them (or unescapes it), and restores
  the spans;
- the beautifier (`beautifyHtmlWithTwig` in `src/components/Serializer.tsx`).
  It shields the Twig spans the same way, cuts the HTML into tag and text
  tokens, re-indents it line by line, and restores the spans;
- the template normalizer (`src/lib/utils.ts`);
- the render service (`src/hook/useTwigService.ts`):
  - helper registration;
  - extraction of missing helper names from an engine error;
  - auto-stubbing with one retry;
  - the `<head>` builder;
  - the diagnostic documents;
- URL sharing (`src/hook/useUrlState.ts`). The state is reduced to its
  non-default fields, encoded, put in the `#state=` hash, and restored;
- the two stores (`src/store/store.ts`, `src/store/functionStore.ts`) and the
  function-list operations (`src/hook/useFunction.ts`).

Three of the source's steps misbehave on some inputs (see Findings):

- the single restore replace, on a span nested in another;
- the unescape chain, on an escaped backslash;
- the tokenizer, on a `<` that starts no tag.

So `serialize`, `deserialize` and the beautifier are each modelled twice:

- as written: `Serialization.SerializeAsWritten`,
  `Serialization.DeserializeAsWritten`, `Pretty.BeautifyAsWritten`, and the
  method `Pretty.BeautifyHtml` that computes it;
- corrected: `Serialization.Serialize`, `Serialization.Deserialize`,
  `Pretty.Beautify`.

Each pair is proved to agree wherever the misbehaviour cannot arise.

How each part is modelled:

- **Pure text transforms** are recursive functions over `string`. The
  JavaScript regular-expression replaces are written as left-to-right scans,
  with the match semantics of a global `replace`.
- **Loops** in the source are `method`s with loop invariants. Each is proved
  equal to the function that specifies it:
  - the three shielding passes;
  - the tokenizer's `exec` loop;
  - the beautifier's token walk;
  - the missing-name extraction;
  - the stub registration.
- **Straight-line builders** in the source, a run of `if` statements that each
  add one piece, are `method`s with the same run of `if`s and no loop. Each is
  proved equal to the function that specifies it:
  - the `<head>` builder, five `if (…) headContent += …` steps;
  - the state optimizer and its head diff, one `if` per field.
- **The stores** are classes whose setters change one field each.
- **Things outside the core become parameters:**
  - the Twig engine is a compile function and a render function;
  - JSON parsing is a function;
  - LZ-string compression is a compress/decompress pair;
  - link rewriting is a function.

Modules:

| module | file | models |
|---|---|---|
| `Text` | text.dfy | JavaScript `\s`, `trim`, `toLowerCase`, `join`, decimal and hex digits |
| `Wrappers` | wrappers.dfy | `Option` |
| `Shielding`, `ShieldProofs` | shield.dfy, shield_proofs.dfy | placeholder extraction and restoration |
| `Minification` | minify.dfy | the minify chain |
| `Codec` | codec.dfy | the escape and unescape chains |
| `OneDirective` | one_directive.dfy | shielding and restoring markup with one Twig span |
| `Serialization` | serialize.dfy | `serialize` and `deserialize` |
| `Tokenizer` | tokenize.dfy | the tag/text tokenizer |
| `Beautifier`, `BeautifyProofs` | beautify.dfy, beautify_proofs.dfy | the beautifier's token walk |
| `LayoutProofs` | layout_proofs.dfy | what the walk keeps of the text, and how a word passes through it whole |
| `Pretty` | pretty.dfy | `beautifyHtmlWithTwig` from end to end |
| `Normalizer` | normalize.dfy | `normalizeTwigTemplate` |
| `Stores` | stores.dfy | the two stores |
| `FunctionList` | functions.dfy | `useFunction` |
| `TwigService` | render.dfy | `useTwigService` |
| `UrlSharing` | urlstate.dfy | `useUrlState` |

## Model

| member | source | states |
|---|---|---|
| `Text.Lower` | src/components/Serializer.tsx:97 | keeps the length; every character is mapped by `LowerChar`, which turns ASCII capitals into lower case and leaves everything else alone |
| `Text.DigitsValueOfNatToString` | src/utils/SerializeUtils.ts:10 | the decimal text written into a placeholder reads back as the same number |
| `Text.Hex4RoundTrip` | src/utils/SerializeUtils.ts:109-111 | the four hex digits of a code unit read back (`parseInt(hex, 16)`) as that code unit |
| `Text.Trim` | src/utils/SerializeUtils.ts:102 | the result neither starts nor ends with whitespace and is no longer than the input |
| `Text.JoinLength` | src/components/Serializer.tsx:153 | the joined text is as long as all the parts plus one separator between each two neighbours (its contents: `Text.JoinAppend`) |
| `Text.JoinAppend` | src/components/Serializer.tsx:153 | joining two non-empty lists is joining each, with one separator between them |
| `Shielding.Placeholder` | src/utils/SerializeUtils.ts:10 | a placeholder starts with `___TWIG_BLOCK_` and consists of word characters only |
| `Shielding.DelimiterPairs` | src/utils/SerializeUtils.ts:9-27 | each of the three delimiter pairs opens with `{`, and no other delimiter character can occur in a placeholder |
| `Shielding.FindCloseFirst` | src/utils/SerializeUtils.ts:9 | the lazy `[\s\S]*?` stops at the first closer after the opener, and finds none when there is none |
| `Shielding.FindCloseTruncate` | src/utils/SerializeUtils.ts:9 | the first closer is found again in the text cut just after it |
| `Shielding.FindCloseNoneSuffix` | src/utils/SerializeUtils.ts:9 | text with no closer has none in any of its suffixes |
| `Shielding.PassCaptures` | src/utils/SerializeUtils.ts:9-13 | every captured block is an opener, the shortest span, and the closer |
| `Shielding.PassWithoutCloser` | src/utils/SerializeUtils.ts:9-13 | a pass over text with no closer changes nothing and captures nothing |
| `Shielding.RunPass` | src/utils/SerializeUtils.ts:9-13 | the replace loop returns the text and the growing table that one `Pass` defines |
| `Shielding.ShieldText` | src/utils/SerializeUtils.ts:8-27 | the three passes in order give `Shield(s)` |
| `Shielding.ShieldSteps` | src/utils/SerializeUtils.ts:8-27 | the table is the statement blocks, then the expression blocks, then the comment blocks, numbered in that order |
| `Shielding.ShieldCaptures` | src/utils/SerializeUtils.ts:8-27 | every table entry is a complete `{% %}`, `{{ }}` or `{# #}` span |
| `Shielding.ShieldWithoutBrace` | src/utils/SerializeUtils.ts:8-27 | text without `{` is left as it is, with an empty table |
| `Shielding.PassWithoutOpener` | src/utils/SerializeUtils.ts:9-13 | a pass over text without `{` changes nothing |
| `Shielding.DigitRun` | src/utils/SerializeUtils.ts:50 | `(\d+)` takes the longest run of digits |
| `Shielding.MatchAt` | src/utils/SerializeUtils.ts:48-54 | a placeholder match starts with the prefix and has a positive length within the text |
| `Shielding.RestoreWithoutPrefix` | src/utils/SerializeUtils.ts:48-54 | text without the placeholder prefix comes back unchanged from both restorations |
| `Shielding.FlatRestoreAgrees` | src/utils/SerializeUtils.ts:117-125 | when no table entry holds a placeholder, the single replace and the nested restoration agree |
| `ShieldProofs.FlatRestore` | src/utils/SerializeUtils.ts:48-54 | restoring the text of a segment list gives the text the segments stand for |
| `ShieldProofs.PassCommutes` | src/utils/SerializeUtils.ts:9-27 | a pass over the text of segments is a pass over the segments |
| `ShieldProofs.DenotePass` | src/utils/SerializeUtils.ts:9-27 | a pass does not change what the segments stand for, given the extended table |
| `ShieldProofs.PassStep` | src/utils/SerializeUtils.ts:9-27 | each pass keeps the invariant: its output, restored with its table, still stands for the input |
| `ShieldProofs.ShieldPasses` | src/utils/SerializeUtils.ts:8-27 | shielding is the statement pass followed by the other two |
| `ShieldProofs.ShieldRoundTrip` | src/utils/SerializeUtils.ts:8-54 | restoring a shielded text with its table gives back the original, for every text without the placeholder prefix |
| `ShieldProofs.NestedShield` | src/utils/SerializeUtils.ts:8-27 | `{#{{w}}#}` shields to placeholder 1, and entry 1 holds placeholder 0 |
| `ShieldProofs.NestedRestoreFlat` | src/utils/SerializeUtils.ts:48-54 | the source's single restore replace leaves placeholder 0 inside the comment, so the output differs from the input |
| `ShieldProofs.NestedRestore` | src/utils/SerializeUtils.ts:48-54 | the nested restoration gives `{#{{w}}#}` back |
| `ShieldProofs.NoUnderscore` | src/utils/SerializeUtils.ts:5 | text without `_` cannot contain the placeholder prefix |
| `Minification.StripBreaksFilters` | src/utils/SerializeUtils.ts:97 | removing line feeds, carriage returns and tabs filters those characters out, and none is left |
| `Minification.StripBreaksLacks` | src/utils/SerializeUtils.ts:97 | the step adds no character |
| `Minification.SpaceRun` | src/utils/SerializeUtils.ts:99-101 | `\s+` takes the longest run of whitespace: every character of the run is whitespace, and the character after it is not |
| `Minification.CloseTagGapsCloses` | src/utils/SerializeUtils.ts:99 | after `>\s+<` becomes `><`, no `>` is followed by whitespace and then `<` |
| `Minification.CloseTagGapsNoBreak` | src/utils/SerializeUtils.ts:99 | the step brings back no line break |
| `Minification.CloseTagGapsLacks` | src/utils/SerializeUtils.ts:99 | the step adds no character other than `<` and `>` |
| `Minification.CollapseSingles` | src/utils/SerializeUtils.ts:101 | after `\s{2,}` becomes one space, no two whitespace characters are adjacent |
| `Minification.CollapseNoGap` | src/utils/SerializeUtils.ts:101 | collapsing keeps tags closed up |
| `Minification.CollapseNoBreak` | src/utils/SerializeUtils.ts:101 | collapsing brings back no line break |
| `Minification.CollapseLacks` | src/utils/SerializeUtils.ts:101 | collapsing adds no character other than a space |
| `Minification.TrimSlice` | src/utils/SerializeUtils.ts:102 | `trim` is a slice of its input with whitespace only on either side |
| `Minification.MinifyShape` | src/utils/SerializeUtils.ts:95-102 | minified text has no line break or tab, no whitespace between tags, no double whitespace, and no whitespace at either end |
| `Minification.MinifyLacks` | src/utils/SerializeUtils.ts:95-102 | minifying adds no character other than a space, `<` or `>` |
| `Minification.MinifyNoSpace` | src/utils/SerializeUtils.ts:95-102 | text without whitespace is not changed by minifying |
| `Codec.EscapeAppend` | src/utils/SerializeUtils.ts:105-114 | escaping works character by character: it distributes over concatenation |
| `Codec.EscapeByChar` | src/utils/SerializeUtils.ts:105-114 | the five replaces in sequence equal one per-character escape |
| `Codec.EscapeAscii` | src/utils/SerializeUtils.ts:105-114 | escaped text is pure ASCII |
| `Codec.UnitEscape` | src/utils/SerializeUtils.ts:109-111 | a code-unit escape is six characters |
| `Codec.SameStepsFix` | src/utils/SerializeUtils.ts:33-34 | the `\n` to `\n` and `\r` to `\r` replaces change nothing |
| `Codec.DecodeCopies` | src/utils/SerializeUtils.ts:41-43 | a character that starts no `\uXXXX` escape is copied |
| `Codec.DecodeUnmatched` | src/utils/SerializeUtils.ts:41-43 | `\u` not followed by four hex digits passes through |
| `Codec.DecodeBmpToken` | src/utils/SerializeUtils.ts:41-43 | the escape of a non-ASCII character below U+10000 decodes to that character |
| `Codec.CombineSplit` | src/utils/SerializeUtils.ts:109-111 | splitting a character above U+FFFF into UTF-16 surrogates and combining them gives the character back |
| `Codec.DecodeAstralToken` | src/utils/SerializeUtils.ts:41-43 | the two escapes of a character above U+FFFF decode to that character |
| `Codec.DecodeSurrogates` | src/utils/SerializeUtils.ts:41-43 | a high-surrogate escape followed by a low-surrogate escape decodes to one character |
| `Codec.SlashAll` | src/utils/SerializeUtils.ts:36 | on escaped text, `\/` to `/` undoes exactly the slash escapes |
| `Codec.QuoteAll` | src/utils/SerializeUtils.ts:38 | on escaped text, `\"` to `"` undoes exactly the quote escapes |
| `Codec.ApostropheAll` | src/utils/SerializeUtils.ts:39 | escaped text holds no `\'`, so that step changes nothing |
| `Codec.DecodeToken` | src/utils/SerializeUtils.ts:41-43 | each remaining escape token decodes to its character |
| `Codec.DecodeAll` | src/utils/SerializeUtils.ts:41-43 | the `\u` step turns the escaped text back into the original |
| `Codec.UnescapeEscape` | src/utils/SerializeUtils.ts:30-45 | the chain as written undoes escaping for text with no backslash and no line feed |
| `Codec.EscapedBackslashLost` | src/utils/SerializeUtils.ts:30-45 | as written, the text `\u0041` escapes to `\\u0041` and unescapes to backslash and `A`, not to itself |
| `Codec.ReadToken` | src/utils/SerializeUtils.ts:105-114 | the one-scan unescape reads each character's escape back as that character, whatever follows it |
| `Codec.UnescapeScanEscape` | src/utils/SerializeUtils.ts:30-45 | the one-scan unescape undoes the escape for every text |
| `Serialization.DecodeWithoutBackslash` | src/utils/SerializeUtils.ts:41-43 | text without a backslash is not changed by the `\u` step |
| `Serialization.ReadWithoutBackslash` | src/utils/SerializeUtils.ts:30-45 | text without a backslash is not changed by the one-scan unescape |
| `Serialization.EscapeLacks` | src/utils/SerializeUtils.ts:105-114 | escaping adds no character outside its own syntax |
| `Serialization.PlainText` | src/utils/SerializeUtils.ts:8-54 | text without `{` and `_` is left alone by both shielding and restoration |
| `Serialization.MinifyEscapeLacks` | src/utils/SerializeUtils.ts:95-114 | minify and escape introduce no `{` and no `_` |
| `Serialization.SerializeAsWritten` | src/utils/SerializeUtils.ts:60-140 | `serialize` as written (one global restore replace): for HTML without `{` or `_` it is escape after minify |
| `Serialization.Serialize` | src/utils/SerializeUtils.ts:60-140 | corrected `serialize` (nested restore): the same for plain HTML, and equal to the version as written when no captured span holds a placeholder |
| `Serialization.DeserializeAsWritten` | src/utils/SerializeUtils.ts:2-57 | `deserialize` as written (unescape chain, one global replace): text without `{`, `_` or a backslash comes back with only `\r\n` turned into `\n` |
| `Serialization.Deserialize` | src/utils/SerializeUtils.ts:2-57 | corrected `deserialize` (one-scan unescape, nested restore): the same for such text, and equal to the version as written when the unshielded text has no backslash and no span holds a placeholder |
| `Serialization.UnnestedAgrees` | src/utils/SerializeUtils.ts:48-54 | the single replace and the nested restoration agree when no span holds a placeholder |
| `Serialization.PlainSerialize` | src/utils/SerializeUtils.ts:60-140 | without `{` and `_`, both restorations leave the escaped minified text alone |
| `Serialization.ReplacePairLacks` | src/utils/SerializeUtils.ts:32 | turning `\r\n` into `\n` brings in no other character |
| `Serialization.UnescapeWithoutBackslash` | src/utils/SerializeUtils.ts:30-45 | without a backslash, both unescapes only turn `\r\n` into `\n` |
| `Serialization.PlainDeserialize` | src/utils/SerializeUtils.ts:2-57 | without `{`, `_` and a backslash, both deserializers only turn `\r\n` into `\n` |
| `Serialization.PlainRoundTrip` | src/utils/SerializeUtils.ts:2-140 | corrected pair: `deserialize(serialize(h))` is the minified `h`, for HTML without `{` or `_` |
| `Serialization.PlainRoundTripAsWritten` | src/utils/SerializeUtils.ts:2-140 | as written: `deserialize(serialize(h))` is the minified `h`, for HTML without `{`, `_` or a backslash |
| `Serialization.SerializeRoundTrip` | src/utils/SerializeUtils.ts:2-140 | corrected pair: when the serialized text shields to the escaped text and the same table, deserializing gives the minified HTML with its Twig spans restored |
| `Serialization.SerializeRoundTripAsWritten` | src/utils/SerializeUtils.ts:2-140 | as written, with no backslash outside the spans and the same re-shielding: deserializing gives the minified text with the spans put back by one replace, which is the corrected round trip when no span holds a placeholder |
| `Serialization.AroundPlaceholder` | src/utils/SerializeUtils.ts:10 | a placeholder between text without whitespace or backslashes adds none |
| `Serialization.SerializeOne` | src/utils/SerializeUtils.ts:73-114 | for one span with no whitespace around it, the shielded text is not changed by minifying and escaping keeps the placeholder |
| `Serialization.DirectiveRoundTrip` | src/utils/SerializeUtils.ts:2-140 | for one span `{% x %}`, `{{ x }}` or `{# x #}` between text without whitespace, `{` or `_`: re-shielding the serialized text finds the span again, both serializers keep it verbatim between the escaped texts, and deserializing gives the markup back |
| `Serialization.DirectiveRoundTripAsWritten` | src/utils/SerializeUtils.ts:2-140 | the same round trip for the functions as written, when the text around the span also has no backslash |
| `OneDirective.InnerDirective` | src/utils/SerializeUtils.ts:9-27 | a directive whose inside holds no delimiter character or `_` has no `_`, and no `{` after its opener |
| `OneDirective.ShieldOne` | src/utils/SerializeUtils.ts:8-27 | markup with one directive and no `{` elsewhere shields to the text with placeholder 0 in its place and a table holding just that directive |
| `OneDirective.RestoreOne` | src/utils/SerializeUtils.ts:48-54 | both restorations put a directive without `_` back in place of placeholder 0, with the text around it unchanged |
| `OneDirective.RestoreLiteral` | src/utils/SerializeUtils.ts:48-54 | text without `_` is copied by the nested restoration, which goes on with what follows |
| `OneDirective.RestoreFlatLiteral` | src/utils/SerializeUtils.ts:48-54 | the same for the single replace |
| `Tokenizer.FindCommentClose` | src/components/Serializer.tsx:79 | a comment match ends at `-->` within the text |
| `Tokenizer.FindGt` | src/components/Serializer.tsx:79 | a tag match ends at a `>` within the text |
| `Tokenizer.TextRun` | src/components/Serializer.tsx:79 | `[^<]+` stops at the first `<` |
| `Tokenizer.Exec` | src/components/Serializer.tsx:79-84 | each `exec` advances by at least one character and no further than the end |
| `Tokenizer.ExecToken` | src/components/Serializer.tsx:79-84 | each match ends its scan step; when stray `<` is kept, the step's token is exactly the text consumed |
| `Tokenizer.TokensAsWritten` | src/components/Serializer.tsx:78-84 | the tokens as written (a stray `<` skipped): each is a comment, a tag or a text run, and together they give the input apart from `<` characters |
| `Tokenizer.Tokens` | src/components/Serializer.tsx:78-84 | the corrected tokens (a stray `<` kept as text): each is a comment, a tag or a text run, and together they give the input exactly |
| `Tokenizer.Tokenize` | src/components/Serializer.tsx:78-84 | the `while (exec)` loop, which skips a stray `<`, returns the tokens `TokensAsWritten(s)` defines |
| `Tokenizer.StrayOpenerDropped` | src/components/Serializer.tsx:78-84 | as written, a `<` that starts no tag is skipped, so the tokens lose it |
| `Tokenizer.ScanLacks` | src/components/Serializer.tsx:78-84 | neither scan brings a character into a token that the text after the start does not hold |
| `Tokenizer.ScanSplit` | src/components/Serializer.tsx:78-84 | a run without `<` or `>` lies whole inside one token, and the text around it is spread over that token and its neighbours without adding any character |
| `Beautifier.Spaces` | src/components/Serializer.tsx:91-93 | `'  '.repeat` gives exactly the requested number of spaces |
| `Beautifier.SplitLines` | src/components/Serializer.tsx:142 | splitting on `\r?\n` gives at least one line |
| `Beautifier.VisitTag` | src/components/Serializer.tsx:101-136 | the tag branch computes the new indent, preserve state and lines that `TagStep` defines |
| `Beautifier.VisitText` | src/components/Serializer.tsx:137-150 | the text branch computes the lines that `TextStep` defines |
| `Beautifier.RunLast` | src/components/Serializer.tsx:100-151 | the walk over one more token is one more step |
| `Beautifier.Walk` | src/components/Serializer.tsx:86-151 | the loop over the tokens produces the lines of `Run(tokens)` |
| `Pretty.Beautify` | src/components/Serializer.tsx:49-158 | the corrected beautifier (stray `<` kept, nested restore): empty input comes back empty; for markup without `{` or `_` it is the layout of the source and keeps every non-space character |
| `Pretty.BeautifyAsWritten` | src/components/Serializer.tsx:49-158 | the beautifier as written (stray `<` skipped, one global restore replace): empty input comes back empty; for markup without `{` or `_` it is the layout of the source and keeps every non-space character other than `<` |
| `Pretty.BeautifyHtml` | src/components/Serializer.tsx:49-158 | the steps of `beautifyHtmlWithTwig` (early return, shielding, the `exec` loop, the walk, the join, the replace) compute `BeautifyAsWritten(source)` |
| `Pretty.WithoutNonSpace` | src/components/Serializer.tsx:79-153 | dropping `<` and dropping whitespace can be done in either order |
| `Pretty.LayoutKeeps` | src/components/Serializer.tsx:79-153 | tokenizing, walking and joining change only whitespace, and as written also drop stray `<` |
| `Pretty.LayoutLacks` | src/components/Serializer.tsx:79-153 | tokenizing, walking and joining bring in no character other than whitespace |
| `Pretty.PlainBeautify` | src/components/Serializer.tsx:56-157 | without `{` and `_`, nothing is shielded and both restorations leave the layout alone |
| `Pretty.PlaceholderShape` | src/components/Serializer.tsx:60 | a placeholder is non-empty, starts with `_`, and holds no whitespace, `<` or `>` |
| `Pretty.LayoutAroundPlaceholder` | src/components/Serializer.tsx:79-153 | a placeholder among text without `_` comes out of the layout whole, with text without `_` around it |
| `Pretty.BeautifyDirective` | src/components/Serializer.tsx:56-157 | corrected beautifier, one directive: the output is the layout of the shielded markup with the directive put back verbatim where its placeholder is, so what the directive holds (`<`, `>`, whitespace) never affects the tokens, the indentation or the lines around it |
| `Pretty.BeautifyDirectiveAsWritten` | src/components/Serializer.tsx:56-157 | the same for the beautifier as written |
| `Pretty.FirstAtCut` | src/components/Serializer.tsx:155-157 | the first `_` in text without `_` followed by a `_` is just after that text |
| `Pretty.CutUnique` | src/components/Serializer.tsx:155-157 | text without `_` in front of a placeholder is fixed by the whole text, and so is what follows it |
| `Pretty.DirectiveInert` | src/components/Serializer.tsx:56-157 | two directives in the same place give the same beautified markup around them |
| `LayoutProofs.JoinLacks` | src/components/Serializer.tsx:153 | the joined lines lack a character other than the separator exactly when every line does |
| `LayoutProofs.IndentedNonSpace` | src/components/Serializer.tsx:91-93 | indenting adds only spaces |
| `LayoutProofs.NormalizeNonSpace` | src/components/Serializer.tsx:142 | turning `\r\n` into `\n` changes only whitespace |
| `LayoutProofs.TagLine` | src/components/Serializer.tsx:101-136 | a tag adds one line: the tag verbatim, or trimmed and indented |
| `LayoutProofs.StepAdds` | src/components/Serializer.tsx:100-150 | each token adds lines after the ones already written, and they hold the token's non-space characters |
| `LayoutProofs.RunAppend` | src/components/Serializer.tsx:86-151 | walking more tokens adds lines after the ones already written, and they hold those tokens' non-space characters |
| `LayoutProofs.RunNonSpace` | src/components/Serializer.tsx:86-153 | the joined lines hold exactly the tokens' non-space characters, in order |
| `LayoutProofs.LinesLackFromText` | src/components/Serializer.tsx:86-153 | lines whose join has the non-space characters of a text lack every non-space character the text lacks |
| `LayoutProofs.CollapseSplit` | src/components/Serializer.tsx:147 | collapsing whitespace passes over a run without whitespace unchanged |
| `LayoutProofs.TrimSplit` | src/components/Serializer.tsx:147 | trimming keeps a run that starts and ends with non-space characters, and adds nothing around it |
| `LayoutProofs.SplitLinesSplit` | src/components/Serializer.tsx:142 | a run without whitespace lies whole in one of the split lines |
| `LayoutProofs.StepSplit` | src/components/Serializer.tsx:100-150 | a run without whitespace in a token lies whole in one of the lines that token adds, and the rest adds no character |
| `LayoutProofs.RunSplit` | src/components/Serializer.tsx:86-153 | a run without whitespace in one token appears whole in the joined lines, and the text around it adds no character that the tokens lack |
| `BeautifyProofs.RunIndentNonNegative` | src/components/Serializer.tsx:123 | the indent never goes below zero |
| `BeautifyProofs.IndentedShape` | src/components/Serializer.tsx:91-93 | an indented line is the content after two spaces per level |
| `BeautifyProofs.KeepsIndent` | src/components/Serializer.tsx:115-136 | comments, doctypes, self-closing tags and void tags add one line and leave the indent and the preserve state alone |
| `BeautifyProofs.MovesIndent` | src/components/Serializer.tsx:122-136 | outside a preserved region, an opening tag indents by one and enters a preserved region exactly for `pre` and `textarea`; a closing tag dedents by one, but not below zero |
| `BeautifyProofs.PlainTag` | src/components/Serializer.tsx:95-107 | `<name>` and `</name>` are classified as an opening and a closing tag of `name` |
| `BeautifyProofs.OpenTag` | src/components/Serializer.tsx:129-136 | an opening tag is written at the current level and raises it |
| `BeautifyProofs.CloseTag` | src/components/Serializer.tsx:122-127 | a closing tag lowers the level and is written at the new level |
| `BeautifyProofs.MatchingPair` | src/components/Serializer.tsx:101-136 | a matching open/close pair returns to the starting indent, with both lines at that level |
| `BeautifyProofs.PreservedTag` | src/components/Serializer.tsx:109-113 | inside a preserved region every tag except its own closer is copied verbatim |
| `BeautifyProofs.JoinSplitLines` | src/components/Serializer.tsx:142-153 | splitting text into lines and joining them with `\n` gives the text with `\r\n` turned into `\n` |
| `BeautifyProofs.PreservedText` | src/components/Serializer.tsx:140-145 | inside a preserved region, text is kept line for line apart from line endings |
| `BeautifyProofs.CollapseSpaceKeeps` | src/components/Serializer.tsx:147 | `replace(/\s+/g, ' ')` changes only whitespace and leaves no two whitespace characters in a row |
| `BeautifyProofs.TrimNonSpace` | src/components/Serializer.tsx:147 | `trim` removes only whitespace |
| `BeautifyProofs.TrimCollapsed` | src/components/Serializer.tsx:147 | trimming keeps collapsed text collapsed |
| `BeautifyProofs.TextLine` | src/components/Serializer.tsx:146-149 | outside preserved regions, blank text adds nothing; other text adds one indented line that has the same non-space characters, single spaces and no whitespace at either end |
| `BeautifyProofs.TagNameLower` | src/components/Serializer.tsx:95-98 | a tag name consists of name characters and has no capital letters |
| `Normalizer.SpaceAfter` | src/lib/utils.ts:13 | the replace never lengthens the text |
| `Normalizer.OpenerRun` | src/lib/utils.ts:13 | a whitespace run after an opener becomes exactly one space |
| `Normalizer.SpaceAfterUntouched` | src/lib/utils.ts:15 | text in which no opener touches whitespace is left unchanged |
| `Normalizer.SpaceAfterNonSpace` | src/lib/utils.ts:17 | only whitespace changes |
| `Normalizer.SpaceBefore` | src/lib/utils.ts:14 | the replace never lengthens the text |
| `Normalizer.CloserRun` | src/lib/utils.ts:14 | a whitespace run before a closer becomes exactly one space |
| `Normalizer.SpaceBeforeUntouched` | src/lib/utils.ts:16 | text in which no closer touches whitespace is left unchanged |
| `Normalizer.SpaceBeforeNonSpace` | src/lib/utils.ts:18 | only whitespace changes |
| `Normalizer.FirstIndex` | src/lib/utils.ts:20 | a found index holds the searched character |
| `Normalizer.SpanAt` | src/lib/utils.ts:20-27 | a matched span is at least four characters long and lies within the text |
| `Normalizer.SpanSqueezed` | src/lib/utils.ts:20-27 | a span with a run of ten or more whitespace characters is replaced by its collapsed form, which has no double whitespace |
| `Normalizer.CollapseNonSpace` | src/lib/utils.ts:21 | collapsing a span changes only whitespace and never lengthens it |
| `Normalizer.CleanSpansNonSpace` | src/lib/utils.ts:20-27 | squeezing spans changes only whitespace and never lengthens the text |
| `Normalizer.DelimitersNonSpace` | src/lib/utils.ts:13-18 | the six delimiter replaces change only whitespace and never lengthen the text |
| `Normalizer.NormalizeNonSpace` | src/lib/utils.ts:9-28 | `normalizeTwigTemplate` changes only whitespace and never lengthens the template |
| `Normalizer.DelimitersUntouched` | src/lib/utils.ts:13-18 | a template whose delimiters touch no whitespace comes through the six replaces unchanged |
| `Stores.MergeCompose` | src/store/store.ts:51-54 | two `setHtmlHead` calls in a row equal one call with the second patch spread over the first |
| `Stores.MergeUnchanged` | src/store/store.ts:51-54 | a patch leaves the head unchanged exactly when every key it has already holds the head's value |
| `Stores.MergeLaws` | src/store/store.ts:51-54 | an empty patch changes nothing, a full patch replaces everything, and merging twice equals merging once |
| `Stores.EditorStore.constructor` | src/store/store.ts:23-47 | the store starts with the sample template, the sample context, an empty rendered document and the sample head |
| `Stores.EditorStore.SetHtml` | src/store/store.ts:48 | sets the template and nothing else |
| `Stores.EditorStore.SetJson` | src/store/store.ts:49 | sets the context and nothing else |
| `Stores.EditorStore.SetRenderedHtml` | src/store/store.ts:50 | sets the rendered document and nothing else |
| `Stores.EditorStore.SetHtmlHead` | src/store/store.ts:51-54 | merges the patch into the head and changes nothing else |
| `Stores.FunctionStore.constructor` | src/store/functionStore.ts:17-18 | the list starts empty and nothing is selected |
| `Stores.FunctionStore.SetTwigFunctions` | src/store/functionStore.ts:19-20 | sets the list and keeps the selection |
| `Stores.FunctionStore.SetSelectedFunction` | src/store/functionStore.ts:21-22 | sets the selection and keeps the list |
| `FunctionList.ReplaceById` | src/hook/useFunction.ts:40-44 | the list keeps its length; each item with the selection's id becomes the selection and every other item is kept |
| `FunctionList.RemoveById` | src/hook/useFunction.ts:52-54 | an item is in the result exactly when it was in the list with another id; the list never grows |
| `FunctionList.FirstWithId` | src/hook/useFunction.ts:60-62 | the index found is that of the first item with the id; no index is found only when no item has it |
| `FunctionList.ReplaceAbsent` | src/hook/useFunction.ts:40-44 | saving a selection whose id no item has leaves the list as it is |
| `FunctionList.ReplaceKeepsIds` | src/hook/useFunction.ts:40-44 | saving keeps every id in its place, and every item with the selection's id is the selection |
| `FunctionList.RemoveAppend` | src/hook/useFunction.ts:52-54 | removal works item by item, keeping the other items in order |
| `FunctionList.RemoveAbsent` | src/hook/useFunction.ts:52-54 | removing an id that no item has changes nothing |
| `FunctionList.RemoveTwice` | src/hook/useFunction.ts:52-54 | removing twice equals removing once |
| `FunctionList.FindFirst` | src/hook/useFunction.ts:60-62 | something is found exactly when an item has the id, and it is the first such item |
| `FunctionList.FindAfterRemove` | src/hook/useFunction.ts:50-62 | an id that was removed is not found any more |
| `FunctionList.AddFunction` | src/hook/useFunction.ts:15-17 | appends the item and keeps the selection |
| `FunctionList.UpdateSelectedFunctionTitle` | src/hook/useFunction.ts:19-26 | renames the selection, if there is one, and changes nothing else |
| `FunctionList.UpdateSelectedFunctionCode` | src/hook/useFunction.ts:28-35 | replaces the selection's code, if there is a selection, and changes nothing else |
| `FunctionList.SaveSelectedFunction` | src/hook/useFunction.ts:37-48 | with a selection, the list becomes `ReplaceById` of it; without one, nothing changes |
| `FunctionList.RemoveFunction` | src/hook/useFunction.ts:50-56 | the list becomes `RemoveById` of the id and the selection is kept |
| `FunctionList.SelectFunctionByFunctionId` | src/hook/useFunction.ts:58-64 | the selection becomes the first item with the id, or none, and the list is kept |
| `TwigService.Names` | src/hook/useTwigService.ts:106-118 | one kind yields at most one name per pattern tried |
| `TwigService.NamesSpec` | src/hook/useTwigService.ts:106-118 | the names of a kind have no duplicates; a name is collected exactly when some pattern of that kind captured it as non-empty text |
| `TwigService.NamesStep` | src/hook/useTwigService.ts:107-117 | trying one more pattern only appends to the names |
| `TwigService.ExtractMissing` | src/hook/useTwigService.ts:68-121 | the nested loops return the names `MissingOf` defines |
| `TwigService.NamesGrowAtEnd` | src/hook/useTwigService.ts:107-117 | the names after fewer patterns are a prefix of the names after more |
| `TwigService.MissingShape` | src/hook/useTwigService.ts:76-121 | each list of missing names has no duplicates, at most three entries, and identifiers only |
| `TwigService.NamesEmpty` | src/hook/useTwigService.ts:106-118 | no capture gives no names |
| `TwigService.NoneMissingIff` | src/hook/useTwigService.ts:380-384 | nothing is missing exactly when no pattern captured anything |
| `TwigService.StubbedSpec` | src/hook/useTwigService.ts:183-229 | every stubbed name maps to its stub; every other name keeps its entry or its absence |
| `TwigService.StubbedLast` | src/hook/useTwigService.ts:183-229 | stubbing one more name is one more map update |
| `TwigService.Registry.constructor` | src/hook/useTwigService.ts:215-221 | a fresh registry has no helpers and records whether tests can be extended |
| `TwigService.Registry.RegisterBuiltins` | src/hook/useTwigService.ts:300-348 | the built-in functions and filters are registered and the tests are left alone |
| `TwigService.Registry.RegisterStubs` | src/hook/useTwigService.ts:178-230 | every missing function and filter gets its stub; missing tests get theirs only when `extendTest` exists |
| `TwigService.ApplyTestStub` | src/hook/useTwigService.ts:212-229 | a stub test fails exactly on `undefined`, `null`, `false`, `0` and `""`, and holds for every object |
| `TwigService.FilterStubIsString` | src/hook/useTwigService.ts:193-211 | a stub filter gives `""` for null and undefined and the value as a string otherwise |
| `TwigService.TerminatedAppend` | src/hook/useTwigService.ts:232-261 | the `<head>` lines are written one after another |
| `TwigService.TerminatedLine` | src/hook/useTwigService.ts:232-261 | a present field adds its line and a newline; an absent field adds nothing |
| `TwigService.BuildHtmlHead` | src/hook/useTwigService.ts:232-261 | builds the head content as each present field's line followed by a newline, in the source's order |
| `TwigService.TerminatedEmpty` | src/hook/useTwigService.ts:232-261 | the content is empty exactly when there are no lines, and otherwise ends with a newline |
| `TwigService.HeadEmptyIff` | src/hook/useTwigService.ts:232-261 | the head content is empty exactly when every head field is empty |
| `TwigService.EscapeLt` | src/hook/useTwigService.ts:59 | the escaped message holds no `<` |
| `TwigService.EscapeLtRoundTrip` | src/hook/useTwigService.ts:59 | for a message without `&`, turning `&lt;` back into `<` gives the message |
| `TwigService.ErrorDocumentParts` | src/hook/useTwigService.ts:16-66 | the diagnostic document carries the title and the escaped message where the layout puts them, and the message part holds no `<` |
| `TwigService.Labeled` | src/hook/useTwigService.ts:396-402 | every name is labelled with its kind's prefix, in order |
| `TwigService.StubLabelsOrder` | src/hook/useTwigService.ts:391-404 | the detail list names the functions, then the filters, then the tests, each with its prefix |
| `TwigService.RenderAttempts` | src/hook/useTwigService.ts:376-437 | rendering, with at most one stubbed retry, gives the document and render count that `Attempts` defines, and stubs exactly the names found |
| `TwigService.Run` | src/hook/useTwigService.ts:350-437 | compile, context parse and render give the outcome `RenderOutcome` defines |
| `TwigService.RenderHtml` | src/hook/useTwigService.ts:297-447 | registers the builtins, stores the text of the outcome's document, and changes no other store field |
| `TwigService.AtMostOneRetry` | src/hook/useTwigService.ts:376-421 | at most two renders run; a second runs only after the first threw naming some missing helper, and exactly those names are stubbed |
| `TwigService.EarlyErrors` | src/hook/useTwigService.ts:352-373 | a compile failure or invalid JSON is reported before any render, with no stubs |
| `TwigService.NoMissingNoRetry` | src/hook/useTwigService.ts:411-420 | a render failure that names no missing helper is reported without a retry |
| `TwigService.AttemptsPage` | src/hook/useTwigService.ts:376-437 | one or two renders run, and the page is produced exactly when the last render succeeded |
| `TwigService.RenderedPage` | src/hook/useTwigService.ts:423-437 | a page comes out exactly when compiling and parsing succeed and the last render rendered, and it holds the head content and that render's link-processed body; otherwise the result is a diagnostic document |
| `UrlSharing.StoreStartsAtDefaults` | src/hook/useUrlState.ts:26-96 | the store's initial template, context and head are the sharing defaults, so with the extension at its default nothing is kept |
| `UrlSharing.FreshEditorShares` | src/hook/useUrlState.ts:26-186 | the store has no extension field, so the empty shortcut never applies: a fresh editor shares the compression of `{}`, which loads back as the default state |
| `UrlSharing.HeadDiffOf` | src/hook/useUrlState.ts:74-93 | the five field comparisons keep exactly the head fields that differ from the default head |
| `UrlSharing.OptimizeState` | src/hook/useUrlState.ts:26-96 | computes the optimized state that `Optimize` defines |
| `UrlSharing.OptimizeKeepsDifferences` | src/hook/useUrlState.ts:26-96 | a field is kept exactly when it differs from its default, and keeps its value; nothing is kept exactly for the default state |
| `UrlSharing.RestoreFills` | src/hook/useUrlState.ts:99-150 | a restored state has every field filled; the empty state restores to the defaults |
| `UrlSharing.RoundTrip` | src/hook/useUrlState.ts:26-150 | restoring an optimized state gives it back when all its fields are non-empty |
| `UrlSharing.EmptyFieldLost` | src/hook/useUrlState.ts:130-147 | an empty template does not survive the round trip: it comes back as the default |
| `UrlSharing.DefaultsEncodeEmpty` | src/hook/useUrlState.ts:153-186 | the default state encodes to the empty string, which decodes to the defaults |
| `UrlSharing.EncodeDecode` | src/hook/useUrlState.ts:153-206 | decoding an encoding gives the state back, given a lossless compressor |
| `UrlSharing.HashRoundTrip` | src/hook/useUrlState.ts:222-233 | a non-empty encoding is read back from the `#state=` hash; an empty one makes no hash |
| `UrlSharing.LoadStateAsWritten` | src/hook/useUrlState.ts:228-252 | as written, the call sets the template, context and head when the hash decodes, but always reports failure |
| `UrlSharing.EmptyEncodingLoads` | src/hook/useUrlState.ts:232-242 | `#state=` alone decodes to the default state |
| `UrlSharing.LoadStateFromUrl` | src/hook/useUrlState.ts:228-252 | reports success exactly when the hash decodes, and then sets the decoded fields and returns the extension code |

## Left out

- Console logging, toasts, `showStats` output and all UI components are left out: they have no effect on the values modelled.
- The browser is not modelled: `window.location`, `history`, the clipboard, `URL` and `DOMParser`. The hash is a string parameter.
- `processLinksForNewTab` (useTwigService.ts lines 264-295) is a function parameter, because it goes through the browser's HTML parser.
- LZ-string compression and `JSON.stringify`/`JSON.parse` are parameters. The round trip assumes a lossless compressor.
- JSON context parsing is a parameter that returns the parse error, if any.
- The Twig engine is a pair of functions. One compiles and may fail; the other renders the template on attempt 0 or 1. Its error message is given as the captures of the nine name patterns.
- `eval` of the user's Twig extension code is left out: it runs arbitrary code.
- The bodies of the built-in helpers are left out: `now`, `year`, `dateFormat`, `range`, and the `registerDefaultHelpers` table. They depend on the clock or are plain formatting. The registry records only which names are registered.
- `TwigService.Registry.RegisterBuiltins`: does not model a registration throwing, because the library's `extend*` calls are assumed to succeed.
- The stubs' `JsValue` has integer numbers only. Floating-point `String(number)` formatting is not modelled.
- The markup of the diagnostic document is kept as constant strings. Its proved content is the position of the title and of the escaped message.
- The store declares no `twigExtension`. The extension code is an input of `UrlSharing.Optimize` and an output of `UrlSharing.LoadStateFromUrl`.
- `useEditorElementSize` and `cn` are not part of this model. They are layout helpers.
- Case-insensitive matching (`/i`) of the missing-name patterns is folded into the engine parameter, which supplies the captures.
- `Codec.DecodeUnits`: an escape of a lone surrogate is left as it is, because no Dafny `char` can hold an unpaired surrogate.
- `Codec.UnescapeEscape`: requires no backslash and no line feed in the text. The chain as written loses escaped backslashes (see Findings). It also has no step that reads back the `\r\n` the escape writes for a line feed, which minified text never holds. `Serialization.Deserialize` uses `Codec.UnescapeScan` instead.
- `ShieldProofs.ShieldRoundTrip`: requires that the input not already contain `___TWIG_BLOCK_`, because such text is restored from the table by the source too.
- `Serialization.SerializeRoundTrip`: states the round trip under the hypothesis that re-shielding the serialized text finds the same spans. Minifying can create a delimiter that the first shielding did not see, for example by removing the line feed between two `{`.
- `Serialization.SerializeRoundTrip`, `Serialization.SerializeRoundTripAsWritten`: the re-shielding hypothesis is discharged for markup with one span and no whitespace around it (`Serialization.DirectiveRoundTrip`), not for every input.
- `Serialization.PlainRoundTrip`: covers HTML without `{` and `_` only; the general case is `Serialization.SerializeRoundTrip`.
- `Serialization.PlainRoundTripAsWritten`: also needs the HTML to hold no backslash, because the chain as written loses escaped backslashes (see Findings).
- `Pretty.BeautifyDirective`, `Pretty.BeautifyDirectiveAsWritten`, `Pretty.DirectiveInert`: cover markup with one span whose inside holds no `{`, `}`, `%`, `#` or `_`, with no `{` or `_` elsewhere. A span may hold `<`, `>` and whitespace.

## Findings

| source | as written | input that shows it | evidently intended | confidence | as-written member | corrected member |
|---|---|---|---|---|---|---|
| src/utils/SerializeUtils.ts:48-54 | restoration is one replace pass, so an entry captured by a later pass still holds the placeholder of an earlier capture | `{#{{w}}#}`: the comment pass captures `{#___TWIG_BLOCK_0___#}`, and restoring yields that text instead of the input | each entry is itself restored with the entries before it, so shielding then restoring gives the input back | not executed | `ShieldProofs.NestedRestoreFlat` | `ShieldProofs.NestedRestore` |
| src/components/Serializer.tsx:78-84 | a `<` that starts no tag is matched by neither alternative, and `exec` skips it | `<` followed by a text `y` without `<` or `>`: the tokens hold only `y` | every character of the input ends up in some token | not executed | `Tokenizer.StrayOpenerDropped` | `Tokenizer.Tokens` |
| src/hook/useUrlState.ts:242 | the load calls `setTwigExtension`, which the store type (src/store/store.ts:11-20) does not define; the call throws after the other fields were set, and the `catch` returns `false` | the hash `#state=` | the fields are set and the load reports success | not executed | `UrlSharing.LoadStateAsWritten` | `UrlSharing.LoadStateFromUrl` |
| src/utils/SerializeUtils.ts:30-45 | the unescape chain reads `\uXXXX` escapes before it undoes `\\`, so the second backslash of an escaped backslash starts a new escape | the text `\u0041` (a backslash, then `u0041`): serialized to `\\u0041`, it deserializes to backslash and `A` | each escape the serializer writes is read back as the character it stands for, so deserializing undoes serializing | not executed | `Codec.EscapedBackslashLost` | `Codec.UnescapeScanEscape` |
