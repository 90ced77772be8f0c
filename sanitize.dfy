/** The input-sanitisation module: five stateless string transforms that
    make untrusted text safe for an HTML context, a text node, a database
    record, an e-mail field or a URL.

    Every transform first returns "" for an empty or non-string argument.
    The pieces that belong to the platform are parameters: whether a
    `window` object and the DOMPurify library are present (and DOMPurify's
    own sanitiser), `String.prototype.toLowerCase`, and the WHATWG URL
    parser with its serialiser. */
module Sanitize {
  import opened JsString
  import opened Entities
  import opened Tags

  // ---------------------------------------------------------------------
  // sanitizeHtml and its fallback

  /** The server-side fallback `sanitizeHtmlServer(dirty, stripTags)`.
      Strip mode deletes every tag; escape mode runs the five-step
      `.replace` chain, ampersand first, which encodes each special
      character exactly once and can be decoded back to the input. */
  function SanitizeHtmlServer(dirty: string, stripTags: bool): (r: string)
    ensures stripTags ==> TagFree(r) && |r| <= |dirty|
    ensures !stripTags ==> '<' !in r && '>' !in r && '"' !in r && '\'' !in r
    ensures !stripTags ==> AmpersandsEscaped(HtmlEntities, r)
    ensures !stripTags ==> r == Encode(HtmlEntities, dirty)
    ensures !stripTags ==> Decode(HtmlEntities, r) == dirty
  {
    if stripTags then StripTags(dirty)
    else
      HtmlEntitiesWellFormed();
      ReplaceChainIsEncode(HtmlEntities, dirty);
      EncodeEscapesAmpersands(HtmlEntities, dirty);
      DecodeEncode(HtmlEntities, dirty);
      HtmlEntitiesOmit(dirty);
      ReplaceChain(HtmlEntities, dirty)
  }

  lemma HtmlEntitiesOmit(s: string)
    ensures '<' !in Encode(HtmlEntities, s) && '>' !in Encode(HtmlEntities, s)
    ensures '"' !in Encode(HtmlEntities, s) && '\'' !in Encode(HtmlEntities, s)
  {
    HtmlEntitiesPlainNames('<');
    EncodeOmits(HtmlEntities, s, '<');
    HtmlEntitiesPlainNames('>');
    EncodeOmits(HtmlEntities, s, '>');
    HtmlEntitiesPlainNames('"');
    EncodeOmits(HtmlEntities, s, '"');
    HtmlEntitiesPlainNames('\'');
    EncodeOmits(HtmlEntities, s, '\'');
  }

  /** A double quote is encoded once, as `&quot;`, never as `&amp;quot;`. */
  lemma QuoteEncodedOnce(q: string)
    requires q == "\""
    ensures SanitizeHtmlServer(q, false) == "&quot;"
  {
    assert Encode(HtmlEntities, q) == EncodeChar(HtmlEntities, '"') + Encode(HtmlEntities, q[1..]);
    assert q[1..] == [];
    assert HtmlEntities[1..][1..][1..][0] == Entity('"', "&quot;");
  }

  /** The options argument of sanitizeHtml; each member may be absent. */
  datatype HtmlOptions = HtmlOptions(
    allowedTags: Option<seq<string>>,
    allowedAttributes: Option<seq<string>>,
    stripTags: Option<bool>)

  /** The DOMPurify configuration sanitizeHtml builds; `None` is a key the
      configuration object does not set. */
  datatype PurifyConfig = PurifyConfig(
    allowedTags: seq<string>,
    allowedAttr: seq<string>,
    allowDataAttr: bool,
    allowUnknownProtocols: bool,
    keepContent: Option<bool>,
    returnDom: Option<bool>,
    returnDomFragment: Option<bool>)

  /** The runtime the call happens in: whether `window` is defined, and
      `window.DOMPurify.sanitize` when the library is loaded. */
  datatype Env = Env(hasWindow: bool, domPurify: Option<(string, PurifyConfig) -> string>)

  const DefaultAllowedTags: seq<string> :=
    ["p", "br", "strong", "em", "u", "ol", "ul", "li", "a", "h1", "h2", "h3", "h4", "h5", "h6"]

  const DefaultAllowedAttributes: seq<string> := ["href", "title", "target"]

  /** `options?.stripTags` is true. */
  predicate StripRequested(options: Option<HtmlOptions>)
  {
    options.Some? && options.value.stripTags == Some(true)
  }

  /** DOMPurify is used only when `window` exists and carries DOMPurify. */
  predicate PurifyAvailable(env: Env)
  {
    env.hasWindow && env.domPurify.Some?
  }

  /** The configuration object of the browser branch. Data attributes and
      unknown URL schemes are never allowed; a strip request empties both
      allow-lists and keeps element content; otherwise each allow-list is
      the caller's (an empty list included) or the default. */
  function PurifyConfigFor(options: Option<HtmlOptions>): (c: PurifyConfig)
    ensures !c.allowDataAttr && !c.allowUnknownProtocols
    ensures c.returnDom == None && c.returnDomFragment == None
    ensures StripRequested(options) ==> c.allowedTags == [] && c.allowedAttr == [] && c.keepContent == Some(true)
    ensures !StripRequested(options) ==> c.keepContent == None
    ensures !StripRequested(options) && (options.None? || options.value.allowedTags.None?) ==>
              c.allowedTags == DefaultAllowedTags
    ensures !StripRequested(options) && options.Some? && options.value.allowedTags.Some? ==>
              c.allowedTags == options.value.allowedTags.value
    ensures !StripRequested(options) && (options.None? || options.value.allowedAttributes.None?) ==>
              c.allowedAttr == DefaultAllowedAttributes
    ensures !StripRequested(options) && options.Some? && options.value.allowedAttributes.Some? ==>
              c.allowedAttr == options.value.allowedAttributes.value
  {
    var tags := if options.Some? && options.value.allowedTags.Some? then options.value.allowedTags.value else DefaultAllowedTags;
    var attrs := if options.Some? && options.value.allowedAttributes.Some? then options.value.allowedAttributes.value else DefaultAllowedAttributes;
    var config := PurifyConfig(tags, attrs, false, false, None, None, None);
    if StripRequested(options) then config.(allowedTags := [], allowedAttr := [], keepContent := Some(true))
    else config
  }

  /** `sanitizeHtml(dirty, options)`. With DOMPurify present the result is
      DOMPurify's for the built configuration (asking for a string, not a
      DOM); in every other runtime it is exactly the fallback's, with the
      strip flag taken from the options. */
  function SanitizeHtml(dirty: JsValue, options: Option<HtmlOptions>, env: Env): (r: string)
    ensures IsBlank(dirty) ==> r == ""
    ensures !IsBlank(dirty) && PurifyAvailable(env) ==>
              r == env.domPurify.value(dirty.s, PurifyConfigFor(options).(returnDom := Some(false), returnDomFragment := Some(false)))
    ensures !IsBlank(dirty) && !PurifyAvailable(env) ==> r == SanitizeHtmlServer(dirty.s, StripRequested(options))
    ensures !PurifyAvailable(env) && StripRequested(options) ==> TagFree(r)
    ensures !PurifyAvailable(env) && !StripRequested(options) ==>
              '<' !in r && '>' !in r && '"' !in r && '\'' !in r && AmpersandsEscaped(HtmlEntities, r)
  {
    if IsBlank(dirty) then ""
    else if env.hasWindow then
      var config := PurifyConfigFor(options);
      if env.hasWindow && env.domPurify.Some? then
        env.domPurify.value(dirty.s, config.(returnDom := Some(false), returnDomFragment := Some(false)))
      else
        SanitizeHtmlServer(dirty.s, StripRequested(options))
    else
      SanitizeHtmlServer(dirty.s, StripRequested(options))
  }

  // ---------------------------------------------------------------------
  // sanitizeText

  /** The options sanitizeText passes: `{ stripTags: true }`. */
  const StripOnly: Option<HtmlOptions> := Some(HtmlOptions(None, None, Some(true)))

  /** `sanitizeText(input)`: strip tags through sanitizeHtml, then run the
      six-step chain. Whatever the stripping step returned, the result has
      no `< > " ' /`, every `&` starts one of the six entities, and decoding
      gives back the stripped text; on the fallback path the result is the
      one-pass encoding of the input with its tags removed. */
  function SanitizeText(input: JsValue, env: Env): (r: string)
    ensures IsBlank(input) ==> r == ""
    ensures '<' !in r && '>' !in r && '"' !in r && '\'' !in r && '/' !in r
    ensures AmpersandsEscaped(TextEntities, r)
    ensures !IsBlank(input) ==> Decode(TextEntities, r) == SanitizeHtml(input, StripOnly, env)
    ensures !IsBlank(input) && !PurifyAvailable(env) ==> r == Encode(TextEntities, StripTags(input.s))
  {
    if IsBlank(input) then ""
    else
      var stripped := SanitizeHtml(input, StripOnly, env);
      TextEntitiesWellFormed();
      ReplaceChainIsEncode(TextEntities, stripped);
      EncodeEscapesAmpersands(TextEntities, stripped);
      DecodeEncode(TextEntities, stripped);
      TextEntitiesOmit(stripped);
      ReplaceChain(TextEntities, stripped)
  }

  lemma TextEntitiesOmit(s: string)
    ensures '<' !in Encode(TextEntities, s) && '>' !in Encode(TextEntities, s)
    ensures '"' !in Encode(TextEntities, s) && '\'' !in Encode(TextEntities, s)
    ensures '/' !in Encode(TextEntities, s)
  {
    TextEntitiesPlainNames('<');
    EncodeOmits(TextEntities, s, '<');
    TextEntitiesPlainNames('>');
    EncodeOmits(TextEntities, s, '>');
    TextEntitiesPlainNames('"');
    EncodeOmits(TextEntities, s, '"');
    TextEntitiesPlainNames('\'');
    EncodeOmits(TextEntities, s, '\'');
    TextEntitiesPlainNames('/');
    EncodeOmits(TextEntities, s, '/');
  }

  // ---------------------------------------------------------------------
  // sanitizeForDatabase

  /** The record length bound of sanitizeForDatabase, in characters. */
  const MaxRecordLength: nat := 1000

  /** `sanitizeForDatabase(input)`: trim, delete NUL twice (`/\0/g`, then
      `/\x00/g`, the same character), keep the first 1000 characters. The
      result is bounded, NUL-free, and the first 1000 characters of the
      trimmed input with its NULs deleted: the second delete does nothing. */
  function SanitizeForDatabase(input: JsValue): (r: string)
    ensures IsBlank(input) ==> r == ""
    ensures |r| <= MaxRecordLength && '\0' !in r
    ensures !IsBlank(input) ==> r == Take(ReplaceAll(Trim(input.s), '\0', ""), MaxRecordLength)
  {
    if IsBlank(input) then ""
    else
      RemoveAllIdempotent(Trim(input.s), '\0');
      Take(ReplaceAll(ReplaceAll(Trim(input.s), '\0', ""), '\0', ""), MaxRecordLength)
  }

  /** NUL is not whitespace, so deleting it after trimming can expose
      whitespace at the ends: the result is neither trimmed nor stable under
      a second application. */
  lemma ForDatabaseNotIdempotent(w: char, c: char)
    requires IsWhitespace(w) && !IsWhitespace(c) && c != '\0'
    ensures SanitizeForDatabase(JsStr([w, '\0', w, c])) == [w, c]
    ensures SanitizeForDatabase(JsStr([w, c])) == [c]
  {
    ForDatabaseNulBetweenSpaces(w, c);
    ForDatabaseLeadingSpace(w, c);
  }

  lemma ForDatabaseNulBetweenSpaces(w: char, c: char)
    requires IsWhitespace(w) && !IsWhitespace(c) && c != '\0'
    ensures SanitizeForDatabase(JsStr([w, '\0', w, c])) == [w, c]
  {
    var s, t, u := [w, '\0', w, c], ['\0', w, c], [w, c];
    assert s == [w] + t && t == ['\0'] + u;
    TrimDropsOneLeading(w, t);
    RemoveLeadingNul(u);
    ForDatabaseShort(s, u);
  }

  lemma ForDatabaseLeadingSpace(w: char, c: char)
    requires IsWhitespace(w) && !IsWhitespace(c) && c != '\0'
    ensures SanitizeForDatabase(JsStr([w, c])) == [c]
  {
    assert [w, c] == [w] + [c];
    TrimDropsOneLeading(w, [c]);
    assert ReplaceAll([c], '\0', "") == [c];
    ForDatabaseShort([w, c], [c]);
  }

  /** Below the length cap the result is the NUL-free trim itself. */
  lemma ForDatabaseShort(s: string, u: string)
    requires s != [] && |u| <= MaxRecordLength && ReplaceAll(Trim(s), '\0', "") == u
    ensures SanitizeForDatabase(JsStr(s)) == u
  {
  }

  /** One leading whitespace character in front of a trimmed string. */
  lemma TrimDropsOneLeading(w: char, t: string)
    requires IsWhitespace(w) && t != [] && !IsWhitespace(t[0]) && !IsWhitespace(t[|t| - 1])
    ensures Trim([w] + t) == t
  {
    var s := [w] + t;
    assert s[0] == w && s[1..] == t;
    assert TrimStart(s) == TrimStart(t) == t;
    assert TrimEnd(t) == t;
  }

  /** Deleting NUL from a string whose only NUL is the first character. */
  lemma RemoveLeadingNul(t: string)
    requires '\0' !in t
    ensures ReplaceAll(['\0'] + t, '\0', "") == t
  {
    ReplaceAllHead(['\0'] + t, '\0', "");
    assert (['\0'] + t)[1..] == t;
  }

  /** The cut comes after the trim, so it can end just after whitespace:
      a 999-character text followed by whitespace and one more character
      is stored with that whitespace at its end, and a second call drops
      it. */
  lemma ForDatabaseCutLeavesSpace(a: string, w: char, c: char)
    requires |a| == MaxRecordLength - 1 && '\0' !in a
    requires !IsWhitespace(a[0]) && !IsWhitespace(a[|a| - 1])
    requires IsWhitespace(w) && !IsWhitespace(c) && c != '\0'
    ensures SanitizeForDatabase(JsStr(a + [w, c])) == a + [w]
    ensures SanitizeForDatabase(JsStr(a + [w])) == a
  {
    ForDatabaseCutAfterSpace(a, w, c);
    ForDatabaseTrailingSpace(a, w);
  }

  lemma ForDatabaseCutAfterSpace(a: string, w: char, c: char)
    requires |a| == MaxRecordLength - 1 && '\0' !in a
    requires !IsWhitespace(a[0]) && !IsWhitespace(a[|a| - 1])
    requires IsWhitespace(w) && !IsWhitespace(c) && c != '\0'
    ensures SanitizeForDatabase(JsStr(a + [w, c])) == a + [w]
  {
    var s := a + [w, c];
    assert s[0] == a[0] && s[|s| - 1] == c;
    TrimmedIsFixed(s);
    assert '\0' !in s;
    assert ReplaceAll(s, '\0', "") == s;
    assert Take(s, MaxRecordLength) == s[..MaxRecordLength] == a + [w];
  }

  lemma ForDatabaseTrailingSpace(a: string, w: char)
    requires |a| == MaxRecordLength - 1 && '\0' !in a
    requires !IsWhitespace(a[0]) && !IsWhitespace(a[|a| - 1])
    requires IsWhitespace(w)
    ensures SanitizeForDatabase(JsStr(a + [w])) == a
  {
    TrimDropsOneTrailing(a, w);
    assert ReplaceAll(a, '\0', "") == a;
    ForDatabaseShort(a + [w], a);
  }

  /** One trailing whitespace character after a trimmed string. */
  lemma TrimDropsOneTrailing(t: string, w: char)
    requires IsWhitespace(w) && t != [] && !IsWhitespace(t[0]) && !IsWhitespace(t[|t| - 1])
    ensures Trim(t + [w]) == t
  {
    var s := t + [w];
    assert s[0] == t[0] && s[..|s| - 1] == t;
    assert TrimStart(s) == s;
    assert TrimEnd(s) == TrimEnd(t) == t;
  }

  lemma ForDatabaseExample()
    ensures SanitizeForDatabase(JsStr(" \0 a")) == " a"
    ensures SanitizeForDatabase(JsStr(" a")) == "a"
  {
    ForDatabaseNotIdempotent(' ', 'a');
  }

  /** The evidently intended order: delete NUL first, trim, keep the first
      1000 characters, and trim the end again in case the cut fell just
      after whitespace. What is stored is the NUL-free trimmed input whole
      when it fits, and otherwise its first 1000 characters less only the
      whitespace the cut left at the end. */
  function SanitizeForDatabaseTrimmed(input: JsValue): (r: string)
    ensures IsBlank(input) ==> r == ""
    ensures |r| <= MaxRecordLength && '\0' !in r
    ensures Trim(r) == r
    ensures !IsBlank(input) ==> r <= Trim(ReplaceAll(input.s, '\0', ""))
    ensures !IsBlank(input) && |Trim(ReplaceAll(input.s, '\0', ""))| <= MaxRecordLength
            ==> r == Trim(ReplaceAll(input.s, '\0', ""))
    ensures !IsBlank(input) ==> var t := Trim(ReplaceAll(input.s, '\0', ""));
              forall k :: |r| <= k < |t| && k < MaxRecordLength ==> IsWhitespace(t[k])
  {
    if IsBlank(input) then ""
    else
      var t := Trim(ReplaceAll(input.s, '\0', ""));
      TrimOmits(ReplaceAll(input.s, '\0', ""), '\0');
      TrimmedCut(t);
      TrimEnd(Take(t, MaxRecordLength))
  }

  /** Cutting a NUL-free trimmed string to the record length and trimming
      the end again leaves a trimmed, NUL-free prefix: the whole string when
      it fits, and otherwise the cut less trailing whitespace only. */
  lemma TrimmedCut(t: string)
    requires (t == [] || (!IsWhitespace(t[0]) && !IsWhitespace(t[|t| - 1]))) && '\0' !in t
    ensures var r := TrimEnd(Take(t, MaxRecordLength));
      r <= t && '\0' !in r && Trim(r) == r
      && (|t| <= MaxRecordLength ==> r == t)
      && (forall k :: |r| <= k < |t| && k < MaxRecordLength ==> IsWhitespace(t[k]))
  {
    TrimEndDropsWhitespace(Take(t, MaxRecordLength));
    CutParts(t, Take(t, MaxRecordLength), TrimEnd(Take(t, MaxRecordLength)));
  }

  /** The facts of TrimmedCut for a cut `cut` of `t` and the string `r` that
      is `cut` less a whitespace-only suffix. */
  lemma CutParts(t: string, cut: string, r: string)
    requires (t == [] || (!IsWhitespace(t[0]) && !IsWhitespace(t[|t| - 1]))) && '\0' !in t
    requires cut <= t && |cut| == if |t| < MaxRecordLength then |t| else MaxRecordLength
    requires r <= cut && (r == [] || !IsWhitespace(r[|r| - 1]))
    requires forall k :: |r| <= k < |cut| ==> IsWhitespace(cut[k])
    ensures r <= t && '\0' !in r && Trim(r) == r
    ensures |t| <= MaxRecordLength ==> r == t
    ensures forall k :: |r| <= k < |t| && k < MaxRecordLength ==> IsWhitespace(t[k])
  {
    PrefixTransitive(r, cut, t);
    PrefixOmits(t, r, '\0');
    TrimmedPrefixKeepsStart(t, r);
    PrefixKeepsWhitespace(t, cut, |r|);
    if |t| <= MaxRecordLength && |r| < |t| {
      assert false;
    }
  }

  /** Whitespace in a prefix `p` of `t` from index `n` on is whitespace of
      `t` at the same indices. */
  lemma PrefixKeepsWhitespace(t: string, p: string, n: nat)
    requires p <= t
    requires forall k :: n <= k < |p| ==> IsWhitespace(p[k])
    ensures forall k :: n <= k < |p| ==> IsWhitespace(t[k])
  {
    forall k | n <= k < |p|
      ensures IsWhitespace(t[k])
    {
      assert t[k] == p[k];
    }
  }

  lemma PrefixTransitive(a: string, b: string, c: string)
    requires a <= b && b <= c
    ensures a <= c
  {
    assert forall i :: 0 <= i < |a| ==> a[i] == b[i] == c[i];
  }

  /** A prefix holds no character its string does not. */
  lemma PrefixOmits(t: string, r: string, c: char)
    requires r <= t && c !in t
    ensures c !in r
  {
    assert forall i :: 0 <= i < |r| ==> r[i] == t[i];
  }

  /** A prefix of a string that starts with non-whitespace, ending in
      non-whitespace itself, is its own trim. */
  lemma TrimmedPrefixKeepsStart(t: string, r: string)
    requires r <= t && (t == [] || !IsWhitespace(t[0]))
    requires r == [] || !IsWhitespace(r[|r| - 1])
    ensures Trim(r) == r
  {
    if r != [] {
      assert r[0] == t[0];
    }
    TrimmedIsFixed(r);
  }

  /** The corrected form is idempotent. */
  lemma SanitizeForDatabaseTrimmedIdempotent(input: JsValue)
    ensures SanitizeForDatabaseTrimmed(JsStr(SanitizeForDatabaseTrimmed(input))) == SanitizeForDatabaseTrimmed(input)
  {
    var r := SanitizeForDatabaseTrimmed(input);
    if r != "" {
      assert ReplaceAll(r, '\0', "") == r;
      assert TrimEnd(r) == r;
    }
  }

  // ---------------------------------------------------------------------
  // sanitizeEmail

  /** The e-mail length bound: the 256-octet path limit of section 4.5.3.1.3
      of RFC 5321 less the two angle brackets. */
  const MaxEmailLength: nat := 254

  /** The class `[a-z0-9@._-]`. */
  predicate IsEmailChar(ch: char)
  {
    ('a' <= ch <= 'z') || ('0' <= ch <= '9') || ch == '@' || ch == '.' || ch == '_' || ch == '-'
  }

  predicate AllEmailChars(s: string)
  {
    forall i :: 0 <= i < |s| ==> IsEmailChar(s[i])
  }

  /** `s.replace(/[^a-z0-9@._-]/g, '')`: keeps exactly the characters of
      the class, in order, and deletes every other one; a string of such
      characters is kept whole. */
  function KeepEmailChars(s: string): (r: string)
    ensures |r| <= |s| && AllEmailChars(r)
    ensures forall x :: x in r ==> x in s
    ensures AllEmailChars(s) ==> r == s
  {
    if s == [] then []
    else (if IsEmailChar(s[0]) then [s[0]] else []) + KeepEmailChars(s[1..])
  }

  lemma {:induction false} KeepEmailCharsConcat(a: string, b: string)
    ensures KeepEmailChars(a + b) == KeepEmailChars(a) + KeepEmailChars(b)
  {
    if a == [] {
      assert a + b == b && KeepEmailChars(a) + KeepEmailChars(b) == KeepEmailChars(b);
    } else {
      KeepEmailCharsConcat(a[1..], b);
      KeepEmailCharsConcatStep(a, b);
    }
  }

  /** The inductive step of KeepEmailCharsConcat: from the tail of `a` to
      `a` itself. */
  lemma KeepEmailCharsConcatStep(a: string, b: string)
    requires a != []
    requires KeepEmailChars(a[1..] + b) == KeepEmailChars(a[1..]) + KeepEmailChars(b)
    ensures KeepEmailChars(a + b) == KeepEmailChars(a) + KeepEmailChars(b)
  {
    var rest := a[1..];
    TailOfConcat(a, b);
    KeepEmailCharsStep(a + b, a[0], rest + b);
    KeepEmailCharsStep(a, a[0], rest);
    ConcatRegroup(if IsEmailChar(a[0]) then [a[0]] else [], KeepEmailChars(rest),
      KeepEmailChars(b), KeepEmailChars(a), KeepEmailChars(rest + b), KeepEmailChars(a + b));
  }

  lemma TailOfConcat(a: string, b: string)
    requires a != []
    ensures a + b != [] && (a + b)[0] == a[0] && (a + b)[1..] == a[1..] + b
  {
  }

  /** Regrouping `h + (x + y)` as `(h + x) + y`, named piece by piece. */
  lemma ConcatRegroup(h: string, x: string, y: string, hx: string, xy: string, hxy: string)
    requires hx == h + x && xy == x + y && hxy == h + xy
    ensures hxy == hx + y
  {
  }

  /** One step of the filter: the first character is kept or dropped. */
  lemma KeepEmailCharsStep(s: string, x: char, rest: string)
    requires s != [] && s[0] == x && s[1..] == rest
    ensures KeepEmailChars(s) == (if IsEmailChar(x) then [x] else []) + KeepEmailChars(rest)
  {
  }

  lemma {:induction false} TrimStartBeforeFilterRedundant(s: string)
    ensures KeepEmailChars(TrimStart(s)) == KeepEmailChars(s)
  {
    if s != [] && IsWhitespace(s[0]) {
      assert !IsEmailChar(s[0]);
      assert KeepEmailChars(s) == KeepEmailChars(s[1..]);
      TrimStartBeforeFilterRedundant(s[1..]);
    }
  }

  lemma {:induction false} TrimEndBeforeFilterRedundant(s: string)
    ensures KeepEmailChars(TrimEnd(s)) == KeepEmailChars(s)
  {
    if s != [] && IsWhitespace(s[|s| - 1]) {
      var init, last := s[..|s| - 1], s[|s| - 1];
      assert s == init + [last];
      KeepEmailCharsConcat(init, [last]);
      assert KeepEmailChars([last]) == [] + KeepEmailChars([last][1..]);
      TrimEndBeforeFilterRedundant(init);
    }
  }

  /** The filter drops every whitespace character, so trimming before it
      changes nothing. */
  lemma TrimBeforeFilterRedundant(s: string)
    ensures KeepEmailChars(Trim(s)) == KeepEmailChars(s)
  {
    TrimEndBeforeFilterRedundant(TrimStart(s));
    TrimStartBeforeFilterRedundant(s);
  }

  /** `email.toLowerCase()` leaves every string of `[a-z0-9@._-]` alone,
      as the platform's lower-casing does. */
  ghost predicate KeepsEmailText(toLowerCase: string -> string)
  {
    forall t :: AllEmailChars(t) ==> toLowerCase(t) == t
  }

  /** `sanitizeEmail(email)`, with the platform's `toLowerCase` as a
      parameter. The result is at most 254 characters of `[a-z0-9@._-]`:
      the lower-cased input filtered to that class and cut, the `trim`
      having no effect. */
  function SanitizeEmail(email: JsValue, toLowerCase: string -> string): (r: string)
    ensures IsBlank(email) ==> r == ""
    ensures |r| <= MaxEmailLength && AllEmailChars(r)
    ensures !IsBlank(email) ==> r == Take(KeepEmailChars(toLowerCase(email.s)), MaxEmailLength)
  {
    if IsBlank(email) then ""
    else
      TrimBeforeFilterRedundant(toLowerCase(email.s));
      Take(KeepEmailChars(Trim(toLowerCase(email.s))), MaxEmailLength)
  }

  /** Sanitising a sanitised address changes nothing. */
  lemma SanitizeEmailIdempotent(email: JsValue, toLowerCase: string -> string)
    requires KeepsEmailText(toLowerCase)
    ensures SanitizeEmail(JsStr(SanitizeEmail(email, toLowerCase)), toLowerCase) == SanitizeEmail(email, toLowerCase)
  {
    var r := SanitizeEmail(email, toLowerCase);
    assert toLowerCase(r) == r;
  }

  /** `toLowerCase` restricted to ASCII: `A`-`Z` become `a`-`z`, every
      other character is kept. */
  function AsciiLowerCase(s: string): (r: string)
    ensures |r| == |s|
    ensures forall i :: 0 <= i < |s| && 'A' <= s[i] <= 'Z' ==> r[i] as int == s[i] as int + 32
    ensures forall i :: 0 <= i < |s| && !('A' <= s[i] <= 'Z') ==> r[i] == s[i]
  {
    seq(|s|, i requires 0 <= i < |s| => if 'A' <= s[i] <= 'Z' then s[i] - 'A' + 'a' else s[i])
  }

  lemma AsciiLowerCaseKeepsEmailText()
    ensures KeepsEmailText(AsciiLowerCase)
  {
    forall t | AllEmailChars(t) ensures AsciiLowerCase(t) == t {
    }
  }

  lemma AsciiLowerCaseExample(s: string)
    requires s == "  USER@Example.COM "
    ensures AsciiLowerCase(s) == "  user@example.com "
  {
    var r, expected := AsciiLowerCase(s), "  user@example.com ";
    assert |r| == |expected|;
    forall i | 0 <= i < |r| ensures r[i] == expected[i] {
    }
  }

  /** Whitespace is never an e-mail character. */
  lemma {:induction false} KeepEmailCharsDropsWhitespace(s: string)
    requires AllWhitespace(s)
    ensures KeepEmailChars(s) == []
  {
    if s != [] {
      assert !IsEmailChar(s[0]);
      KeepEmailCharsDropsWhitespace(s[1..]);
    }
  }

  /** Padding an address with whitespace does not change what the filter
      keeps. */
  lemma KeepEmailCharsPadded(pre: string, core: string, post: string)
    requires AllWhitespace(pre) && AllEmailChars(core) && AllWhitespace(post)
    ensures KeepEmailChars(pre + core + post) == core
  {
    KeepEmailCharsConcat(pre + core, post);
    KeepEmailCharsConcat(pre, core);
    KeepEmailCharsDropsWhitespace(pre);
    KeepEmailCharsDropsWhitespace(post);
  }

  lemma KeepEmailCharsExample(s: string)
    requires s == "  user@example.com "
    ensures KeepEmailChars(s) == "user@example.com"
  {
    var pre, core, post := "  ", "user@example.com", " ";
    assert s == pre + core + post;
    assert AllWhitespace(pre) && AllWhitespace(post);
    assert AllEmailChars(core);
    KeepEmailCharsPadded(pre, core, post);
  }

  /** A padded, mixed-case address: surrounding spaces go, letters are lowered. */
  lemma SanitizeEmailExample(email: string)
    requires email == "  USER@Example.COM "
    ensures SanitizeEmail(JsStr(email), AsciiLowerCase) == "user@example.com"
  {
    var lowered, kept := "  user@example.com ", "user@example.com";
    AsciiLowerCaseExample(email);
    KeepEmailCharsExample(lowered);
    SanitizeEmailShort(email, AsciiLowerCase, kept);
  }

  /** Below the length cap the result is the filtered, lowered address. */
  lemma SanitizeEmailShort(email: string, toLowerCase: string -> string, kept: string)
    requires email != [] && KeepEmailChars(toLowerCase(email)) == kept && |kept| <= MaxEmailLength
    ensures SanitizeEmail(JsStr(email), toLowerCase) == kept
  {
  }

  // ---------------------------------------------------------------------
  // sanitizeUrl

  /** The URL facility: `new URL(s)` (None where it throws), the parsed
      URL's `protocol` (the scheme with its colon) and `toString()`. */
  datatype UrlParser<!U> = UrlParser(parse: string -> Option<U>, protocol: U -> string, serialize: U -> string)

  predicate IsWebProtocol(p: string)
  {
    p == "http:" || p == "https:"
  }

  /** `sanitizeUrl(url)`. It never fails: a parse failure or a scheme other
      than http/https gives "", and an accepted URL gives exactly the
      parser's serialisation, so a non-empty result always comes from an
      http(s) parse. */
  function SanitizeUrl<U(!new)>(url: JsValue, parser: UrlParser<U>): (r: string)
    ensures IsBlank(url) ==> r == ""
    ensures !IsBlank(url) && parser.parse(url.s).None? ==> r == ""
    ensures !IsBlank(url) && parser.parse(url.s).Some? && !IsWebProtocol(parser.protocol(parser.parse(url.s).value)) ==> r == ""
    ensures !IsBlank(url) && parser.parse(url.s).Some? && IsWebProtocol(parser.protocol(parser.parse(url.s).value)) ==>
              r == parser.serialize(parser.parse(url.s).value)
    ensures r != "" ==> exists u :: && !IsBlank(url) && parser.parse(url.s) == Some(u)
                                    && IsWebProtocol(parser.protocol(u)) && r == parser.serialize(u)
  {
    if IsBlank(url) then ""
    else
      match parser.parse(url.s)
      case None => ""
      case Some(parsed) =>
        if !IsWebProtocol(parser.protocol(parsed)) then "" else parser.serialize(parsed)
  }

  /** The URL serialiser writes the scheme first (`protocol` then the rest),
      as the URL serializer of the WHATWG URL Standard does. */
  ghost predicate SerializesSchemeFirst<U(!new)>(parser: UrlParser<U>)
  {
    forall u :: parser.protocol(u) <= parser.serialize(u)
  }

  /** With such a serialiser, a sanitised URL is empty or starts with
      `http:` or `https:`; `javascript:`, `data:` and `file:` URLs cannot
      get through. */
  lemma SanitizeUrlScheme<U(!new)>(url: JsValue, parser: UrlParser<U>)
    requires SerializesSchemeFirst(parser)
    ensures var r := SanitizeUrl(url, parser); r == "" || "http:" <= r || "https:" <= r
  {
    var r := SanitizeUrl(url, parser);
    if r != "" {
      var u :| parser.parse(url.s) == Some(u) && IsWebProtocol(parser.protocol(u)) && r == parser.serialize(u);
      assert parser.protocol(u) <= r;
    }
  }
}
