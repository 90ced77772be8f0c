# Input sanitisers of nextBoilerplate, modelled in Dafny

This project models `src/lib/sanitize.ts`. That module holds five stateless string transforms, and every one of them returns `""` for an empty or non-string argument:

- `sanitizeHtml` picks DOMPurify when the code runs in a browser that has it loaded. Otherwise it uses the server fallback `sanitizeHtmlServer`, which either strips tags with `/<[^>]*>/g` or entity-encodes `& < > " '`.
- `sanitizeText` strips tags through `sanitizeHtml` and then runs a six-step encode chain that also encodes `/`.
- `sanitizeForDatabase` trims, deletes NUL and keeps at most 1000 characters.
- `sanitizeEmail` lower-cases, trims, keeps only `[a-z0-9@._-]` and keeps at most 254 characters.
- `sanitizeUrl` accepts only URLs whose parsed scheme is `http:` or `https:`, and returns the parser's serialisation.

The model is written in a functional style, as the source is. Each transform is a Dafny function. Its contract states the property the transform promises, and lemmas state what holds across calls.

The files are:

- `js_string.dfy` (module `JsString`) holds the JavaScript built-ins the sanitisers use. `.replace(/c/g, rep)` with a one-character pattern is `ReplaceAll`. `trim` is `Trim`, over the ECMAScript WhiteSpace and LineTerminator characters. `slice(0, n)` is `Take`. The argument guard `!x || typeof x !== 'string'` is `IsBlank` over `JsValue`.
- `entities.dfy` (module `Entities`) models a chain of global replaces as a table of `(character, entity)` steps run in order (`ReplaceChain`). It relates the chain to:
  - a one-pass, character-by-character encoder (`Encode`), which is the independent reference definition;
  - a decoder (`Decode`).
  
  It also proves that the two concrete tables, the five HTML entities and the six text entities, satisfy the conditions under which chain = encoder and decode ∘ encode = identity.
- `tags.dfy` (module `Tags`) holds the strip-mode regular expression (`StripTags`).
- `sanitize.dfy` (module `Sanitize`) holds the five transforms and the DOMPurify branch.

The platform pieces are parameters:

- `Env` says whether `window` exists, and holds `window.DOMPurify.sanitize` when the library is loaded.
- The lower-casing function is a parameter of `SanitizeEmail`. `AsciiLowerCase` is one concrete instance.
- `UrlParser` bundles `new URL` (with `None` where it throws), `protocol` and `toString`.

## Model

| member | source | states |
|---|---|---|
| JsString.ReplaceAll | src/lib/sanitize.ts:18-22 | a global single-character replace leaves no `c` when `rep` has none, adds only characters of `rep`, and is the identity when `c` does not occur |
| JsString.IsBlank | src/lib/sanitize.ts:39 | the argument guard `!x \|\| typeof x !== 'string'` (also at lines 79, 99, 117 and 134): a value is blank when it is not a string or is the empty string; every sanitiser's contract states that blank input gives `""` |
| JsString.ReplaceAllConcat | src/lib/sanitize.ts:18-22 | a global replace acts on the two halves of a concatenation independently |
| JsString.RemoveAllIdempotent | src/lib/sanitize.ts:106-107 | deleting every `c` a second time changes nothing |
| JsString.IsWhitespace | src/lib/sanitize.ts:105 | the characters `trim` removes, used at lines 105 and 123: the ECMAScript WhiteSpace and LineTerminator sets; its meaning for `trim` is stated by TrimStartDropsWhitespace, TrimEndDropsWhitespace and TrimIsInfix |
| JsString.TrimStart | src/lib/sanitize.ts:105 | the leading half of `trim`: a suffix of the input that is empty or starts with non-whitespace |
| JsString.TrimStartDropsWhitespace | src/lib/sanitize.ts:105 | everything the leading half of `trim` removes is whitespace |
| JsString.TrimEnd | src/lib/sanitize.ts:105 | the trailing half of `trim`, also the last step of the corrected database form: a prefix of the input that is empty or ends with non-whitespace |
| JsString.TrimEndDropsWhitespace | src/lib/sanitize.ts:105 | everything the trailing half of `trim` removes is whitespace |
| JsString.Trim | src/lib/sanitize.ts:105 | `trim` yields a string that neither starts nor ends with whitespace |
| JsString.TrimIsInfix | src/lib/sanitize.ts:105 | `trim` removes only whitespace and only at the two ends: its result is a contiguous slice of the input between a whitespace-only prefix and a whitespace-only suffix |
| JsString.TrimOmits | src/lib/sanitize.ts:105 | trimming introduces no character the input lacks |
| JsString.TrimmedIsFixed | src/lib/sanitize.ts:105 | a string with non-whitespace ends is its own trim |
| JsString.Take | src/lib/sanitize.ts:108 | `slice(0, n)` is a prefix of length min(n, length) |
| Entities.ReplaceChain | src/lib/sanitize.ts:17-22 | the sequential chain of global replaces, one table step per `.replace` call (also the text chain at lines 85-90); its meaning is stated by ReplaceChainIsEncode, DecodeEncode and ReplaceChainSplit |
| Entities.ReplaceChainIsEncode | src/lib/sanitize.ts:17-22 | a replace chain in which no step writes a character a later step replaces equals the one-pass per-character encoder |
| Entities.DecodeEncode | src/lib/sanitize.ts:17-22 | for a table led by `&` whose entity names are prefix-free, decoding the encoding returns the input |
| Entities.EncodeEscapesAmpersands | src/lib/sanitize.ts:18 | when `&` is a target and every name is an `&` followed by no other `&`, every `&` in the encoding begins one of the table's entity names |
| Entities.EncodeOmits | src/lib/sanitize.ts:19-22 | a target character that no entity name contains is absent from the encoding |
| Entities.HtmlEntitiesWellFormed | src/lib/sanitize.ts:18-22 | the five-step escape chain, ampersand first, meets all three conditions above |
| Entities.TextEntitiesWellFormed | src/lib/sanitize.ts:85-90 | the six-step text chain, ampersand first, meets all three conditions above |
| Entities.AmpersandLastDoubleEncodes | src/lib/sanitize.ts:18 | with the ampersand step moved last, the chain is no longer a one-pass encoder and turns `"` into `&amp;quot;`, which is why `&` goes first |
| Entities.AmpersandLastOmits | src/lib/sanitize.ts:18-22 | moving the ampersand step last would still leave no `<`, `>`, `"` or `'`: the order of the chain matters for round-tripping, not for those four |
| Entities.ReplaceChainSplit | src/lib/sanitize.ts:17-22 | a chain runs as its first n steps followed by the rest |
| Tags.CloseAt | src/lib/sanitize.ts:14 | the `[^>]*>` run of the tag pattern: the first `>` at or after a position, with no `>` before it |
| Tags.StripTags | src/lib/sanitize.ts:14 | the strip replace is never longer than its input, keeps only characters of the input, and leaves no `<` followed anywhere later by `>` |
| Tags.StripTagsSubsequence | src/lib/sanitize.ts:14 | the strip replace only deletes: its result is a subsequence of the input, in order |
| Tags.StripTagsKeepsText | src/lib/sanitize.ts:14 | text before the first `<` is kept as it is, in front of the strip of the rest |
| Tags.StripTagsDropsTag | src/lib/sanitize.ts:14 | a complete tag `<name>` at the front, with no `>` in `name`, is deleted and stripping goes on after it; with StripTagsKeepsText and StripTagsKeepsUnclosed this pins down the whole pattern |
| Tags.StripTagsUnchangedIff | src/lib/sanitize.ts:14 | stripping leaves a string unchanged if and only if no `<` in it is followed later by `>` |
| Tags.StripTagsIdempotent | src/lib/sanitize.ts:14 | stripping twice equals stripping once |
| Tags.StripTagsExample | src/lib/sanitize.ts:14 | `<b>hi</b>` strips to `hi` |
| Tags.StripTagsLeavesStrayBrackets | src/lib/sanitize.ts:14 | `a<b` survives unchanged and `<<a>>` leaves `>`: the output can still hold angle brackets |
| Tags.StripTagsKeepsUnclosed | src/lib/sanitize.ts:14 | a string with no `>` passes through whole |
| Tags.StripTagsKeepsUnclosedExample | src/lib/sanitize.ts:14 | the unterminated tag `x<img src=x onerror=alert(1)` passes through strip mode unchanged |
| Tags.StripTagsStrict | src/lib/sanitize.ts:12-15 | the corrected strip holds no `<` and no `>` and only characters of the input |
| Tags.StripTagsStrictAgrees | src/lib/sanitize.ts:12-15 | where the tag pattern already removed every bracket, the corrected strip equals the original |
| Tags.StripTagsStrictIdempotent | src/lib/sanitize.ts:12-15 | the corrected strip is idempotent |
| Tags.StripTagsStrictUnclosed | src/lib/sanitize.ts:12-15 | the corrected strip turns an unterminated tag `a<b` (no brackets in `a`, `b`) into `ab` |
| Sanitize.SanitizeHtmlServer | src/lib/sanitize.ts:11-23 | strip mode leaves no `<` before a later `>` and does not lengthen the input; escape mode leaves no raw `< > " '`, every `&` begins one of the five entities, the result is the one-pass encoding of the input, and decoding it returns the input |
| Sanitize.HtmlEntitiesOmit | src/lib/sanitize.ts:19-22 | the five-entity encoding holds no raw `< > " '` |
| Sanitize.QuoteEncodedOnce | src/lib/sanitize.ts:21 | escape mode turns `"` into `&quot;`, not `&amp;quot;` |
| Sanitize.PurifyConfigFor | src/lib/sanitize.ts:45-58 | the browser configuration never allows data attributes or unknown protocols; a strip request empties both allow-lists and keeps content; otherwise each allow-list is the caller's (an empty list included) or the default |
| Sanitize.SanitizeHtml | src/lib/sanitize.ts:31-71 | blank input gives `""`; with window and DOMPurify the result is DOMPurify's for the built configuration with DOM return switched off; in every other runtime it equals `sanitizeHtmlServer(dirty, stripTags)` exactly, and so inherits its safety properties |
| Sanitize.SanitizeText | src/lib/sanitize.ts:78-91 | blank input gives `""`; the result holds no `< > " ' /`; every `&` begins one of the six entities; decoding returns what the strip step produced; on the fallback path the result is the one-pass encoding of the tag-stripped input |
| Sanitize.TextEntitiesOmit | src/lib/sanitize.ts:85-90 | the six-entity encoding holds no raw `< > " ' /` |
| Sanitize.SanitizeForDatabase | src/lib/sanitize.ts:98-109 | blank input gives `""`; the result has at most 1000 characters and no NUL, and is the first 1000 characters of the trimmed input with NUL deleted, so the second replace at line 107 does nothing |
| Sanitize.ForDatabaseNotIdempotent | src/lib/sanitize.ts:104-108 | a whitespace, NUL, whitespace, character input comes out with leading whitespace, and a second call changes it again: the result is neither trimmed nor stable |
| Sanitize.ForDatabaseExample | src/lib/sanitize.ts:104-108 | `" \0 a"` gives `" a"`, and `" a"` gives `"a"` |
| Sanitize.ForDatabaseCutLeavesSpace | src/lib/sanitize.ts:105-108 | the cut at line 108 runs after the trim at line 105: a NUL-free 999-character text with non-whitespace ends, followed by whitespace `w` and a non-whitespace character, is stored ending in `w`, and a second call removes `w` |
| Sanitize.SanitizeForDatabaseTrimmed | src/lib/sanitize.ts:104-108 | the corrected order (delete NUL, trim, cut, trim the end) gives at most 1000 characters, no NUL and a trimmed result; it stores the NUL-free trimmed input whole when that has at most 1000 characters, and otherwise a prefix of it from which only whitespace inside the first 1000 characters was dropped |
| Sanitize.SanitizeForDatabaseTrimmedIdempotent | src/lib/sanitize.ts:104-108 | the corrected form is idempotent |
| Sanitize.KeepEmailChars | src/lib/sanitize.ts:124 | the filter keeps only `[a-z0-9@._-]`, never lengthens, writes no character the input lacks (so every other character is deleted, not replaced), and keeps a string of that class whole; with KeepEmailCharsConcat this fixes the result |
| Sanitize.KeepEmailCharsConcat | src/lib/sanitize.ts:124 | the filter acts on the two halves of a concatenation independently |
| Sanitize.TrimBeforeFilterRedundant | src/lib/sanitize.ts:123-124 | filtering the trimmed string equals filtering the untrimmed one: the `trim` is redundant |
| Sanitize.KeepEmailCharsPadded | src/lib/sanitize.ts:123-124 | whitespace around an address does not change what the filter keeps |
| Sanitize.SanitizeEmail | src/lib/sanitize.ts:116-126 | blank input gives `""`; the result has at most 254 characters, all in `[a-z0-9@._-]`, and is the first 254 of the lower-cased, filtered input |
| Sanitize.SanitizeEmailIdempotent | src/lib/sanitize.ts:121-125 | with a lower-casing that leaves `[a-z0-9@._-]` text alone, sanitising a sanitised address changes nothing |
| Sanitize.AsciiLowerCase | src/lib/sanitize.ts:122 | ASCII lower-casing keeps the length, maps each `A`-`Z` to the letter 32 code points later (its lower case) and keeps every other character |
| Sanitize.AsciiLowerCaseKeepsEmailText | src/lib/sanitize.ts:122 | ASCII lower-casing leaves `[a-z0-9@._-]` text alone |
| Sanitize.SanitizeEmailExample | src/lib/sanitize.ts:121-125 | `"  USER@Example.COM "` gives `"user@example.com"` |
| Sanitize.SanitizeUrl | src/lib/sanitize.ts:133-148 | blank input, a parse failure or a scheme other than `http:`/`https:` gives `""`; an accepted URL gives exactly its serialisation; a non-empty result always comes from an http(s) parse |
| Sanitize.SanitizeUrlScheme | src/lib/sanitize.ts:141-144 | with a serialiser that writes the scheme first, a sanitised URL is empty or starts with `http:` or `https:` |

## Left out

- DOMPurify is not modelled: `Env.domPurify` is an arbitrary function. The model fixes only the configuration it receives and the branch that calls it.
- Sanitize.SanitizeHtml: promises nothing about the output of the DOMPurify branch. The `String(result)` conversion at src/lib/sanitize.ts:63 is left out, because the library is modelled as returning a string.
- Sanitize.SanitizeText: the fallback-path equation is stated only when DOMPurify is absent. With DOMPurify, the result is the encoding of whatever DOMPurify returned.
- WHATWG URL parsing and serialisation are not modelled. The parser is the `UrlParser` parameter, and a thrown exception is `parse` returning `None`.
- Unicode `toLowerCase` is not modelled: lower-casing is a parameter. `AsciiLowerCase` is an ASCII-only instance. A non-ASCII letter that lower-cases into `[a-z]`, such as the Kelvin sign becoming `k`, is covered only through the parameter.
- Sanitize.SanitizeEmailIdempotent: requires that the lower-casing leaves `[a-z0-9@._-]` text alone, which the platform's `toLowerCase` does.
- Each `char` is one Unicode code point, while a JavaScript string is a sequence of UTF-16 code units. The bounds of 1000 and 254 therefore count code points: on text with characters above U+FFFF the source's `length` and `slice` count up to twice as many units.
- Lone surrogates, and a `slice` that splits a surrogate pair, are not modelled: a `char` cannot hold half a pair.
- Neither strip mode leaving no `<` or `>` nor `sanitizeForDatabase` being idempotent holds for the code as written (see Findings). `SanitizeHtmlServer` and `SanitizeForDatabase` follow the code.
- Sanitize.SanitizeHtml: the fallback branch in strip mode is stated as `TagFree`, not as "no angle brackets", because the code as written does not remove them.
- The other files of the repository are not part of this model: the pages, layouts, forms, language switcher and middleware. They are UI, network and configuration code.

## Findings

| source | as written | input that shows it | evidently intended | confidence | as-written member | corrected member |
|---|---|---|---|---|---|---|
| src/lib/sanitize.ts:104-107 | trims first, then deletes NUL, so whitespace next to a NUL ends up at the edge | `" \0 a"` gives `" a"`; a second call gives `"a"` | a result with no surrounding whitespace, as the comment at src/lib/sanitize.ts:103, "Trim whitespace and remove null bytes", reads; a second call then changes nothing | medium, not executed | Sanitize.ForDatabaseNotIdempotent | Sanitize.SanitizeForDatabaseTrimmed |
| src/lib/sanitize.ts:105-108 | trims before the cut to 1000 characters, so a cut that ends just after whitespace leaves that whitespace at the end, with no NUL involved | a NUL-free 999-character text `a` with non-whitespace ends, followed by `" b"`, gives `a + " "`; a second call gives `a` | a result with no surrounding whitespace, as the comment at src/lib/sanitize.ts:103, "Trim whitespace and remove null bytes", reads; a second call then changes nothing | medium, not executed | Sanitize.ForDatabaseCutLeavesSpace | Sanitize.SanitizeForDatabaseTrimmed |
| src/lib/sanitize.ts:14 | `/<[^>]*>/g` removes only complete tags; a `<` with no later `>` and a stray `>` survive | `x<img src=x onerror=alert(1)` is returned unchanged; `<<a>>` gives `>` | strip mode leaves no part of a tag, as the comment at src/lib/sanitize.ts:13, "Remove all HTML tags", reads; so no `<` or `>` survives | medium, not executed | Tags.StripTagsKeepsUnclosedExample | Tags.StripTagsStrict |
