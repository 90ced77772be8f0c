/** Tag stripping as sanitizeHtmlServer's strip mode writes it:
    `s.replace(/<[^>]*>/g, '')`.

    The pattern matches at a `<` exactly when some `>` follows it, and the
    match then runs to the first such `>` (`[^>]*` cannot pass a `>`). A
    global replace scans left to right and resumes after each match. */
module Tags {
  import opened JsString

  /** The first `>` at or after `from`. */
  function CloseAt(s: string, from: nat): (j: nat)
    requires from <= |s| && '>' in s[from..]
    ensures from <= j < |s| && s[j] == '>' && '>' !in s[from..j]
    decreases |s| - from
  {
    if s[from] == '>' then from
    else
      assert s[from..] == [s[from]] + s[from + 1..];
      CloseAt(s, from + 1)
  }

  /** No `<` is followed, anywhere later, by a `>`: nothing is left for the
      tag pattern to match. */
  predicate TagFree(r: string)
  {
    forall i, j :: 0 <= i < j < |r| && r[i] == '<' ==> r[j] != '>'
  }

  /** The strip-mode replace. Its result keeps only characters of the input,
      in input order, and contains nothing the tag pattern matches. */
  function StripTags(s: string): (r: string)
    ensures |r| <= |s|
    ensures forall x :: x in r ==> x in s
    ensures TagFree(r)
    decreases |s|
  {
    if s == [] then []
    else if s[0] == '<' && '>' in s[1..] then
      var rest := s[CloseAt(s, 1) + 1..];
      assert forall x :: x in rest ==> x in s;
      StripTags(rest)
    else
      var tail := StripTags(s[1..]);
      assert s[0] == '<' ==> '>' !in tail;
      [s[0]] + tail
  }

  /** `r` can be obtained from `s` by deleting characters. */
  predicate IsSubsequence(r: string, s: string)
    decreases |s|
  {
    r == [] || (s != [] && ((r[0] == s[0] && IsSubsequence(r[1..], s[1..])) || IsSubsequence(r, s[1..])))
  }

  /** A subsequence of a suffix is a subsequence of the whole. */
  lemma {:induction false} SubsequenceOfSuffix(r: string, s: string, k: nat)
    requires k <= |s| && IsSubsequence(r, s[k..])
    ensures IsSubsequence(r, s)
  {
    if k > 0 {
      assert s[1..][k - 1..] == s[k..];
      SubsequenceOfSuffix(r, s[1..], k - 1);
    }
  }

  /** Stripping only deletes: what is left is a subsequence of the input. */
  lemma {:induction false} StripTagsSubsequence(s: string)
    ensures IsSubsequence(StripTags(s), s)
    decreases |s|
  {
    if s == [] {
    } else if s[0] == '<' && '>' in s[1..] {
      var k := CloseAt(s, 1) + 1;
      StripTagsSubsequence(s[k..]);
      SubsequenceOfSuffix(StripTags(s), s, k);
    } else {
      StripTagsSubsequence(s[1..]);
      var r := StripTags(s);
      assert r == [s[0]] + StripTags(s[1..]);
      assert r[0] == s[0] && r[1..] == StripTags(s[1..]);
    }
  }

  /** Text before the first `<` always survives, in place. */
  lemma {:induction false} StripTagsKeepsText(a: string, t: string)
    requires '<' !in a
    ensures StripTags(a + t) == a + StripTags(t)
  {
    if a == [] {
      assert a + t == t;
    } else {
      assert (a + t)[0] == a[0] && (a + t)[1..] == a[1..] + t;
      StripTagsKeepsText(a[1..], t);
      assert a == [a[0]] + a[1..];
    }
  }

  /** A tag-free string is left as it is. */
  lemma {:induction false} StripTagsKeepsTagFree(s: string)
    requires TagFree(s)
    ensures StripTags(s) == s
  {
    if s != [] {
      StripTagsKeepsTagFree(s[1..]);
    }
  }

  /** Stripping changes a string exactly when it holds a tag. */
  lemma StripTagsUnchangedIff(s: string)
    ensures StripTags(s) == s <==> TagFree(s)
  {
    if TagFree(s) {
      StripTagsKeepsTagFree(s);
    }
  }

  /** Stripping twice is stripping once. */
  lemma StripTagsIdempotent(s: string)
    ensures StripTags(StripTags(s)) == StripTags(s)
  {
    StripTagsKeepsTagFree(StripTags(s));
  }

  /** A `<` with no `>` after it is not a tag and survives, and so does the
      `>` left over after the first `>` ends a tag: the output may still hold
      angle brackets. */
  lemma StripTagsLeavesStrayBrackets()
    ensures StripTags("a<b") == "a<b"
    ensures StripTags("<<a>>") == ">"
  {
    StripTagsKeepsTagFree("a<b");
    var s := "<<a>>";
    assert CloseAt(s, 1) == 3;
    assert s[4..] == ">";
    StripTagsKeepsTagFree(">");
  }

  /** Without a `>` there is no tag: the string is kept whole, including
      an unterminated tag with an event-handler attribute. */
  lemma StripTagsKeepsUnclosed(s: string)
    requires '>' !in s
    ensures StripTags(s) == s
  {
    StripTagsKeepsTagFree(s);
  }

  lemma StripTagsKeepsUnclosedExample(s: string)
    requires s == "x<img src=x onerror=alert(1)"
    ensures StripTags(s) == s
  {
    StripTagsKeepsUnclosed(s);
  }

  /** Strip mode as its comment "Remove all HTML tags" reads: strip the
      tags, then delete every `<` and `>` the tag pattern left behind, so
      that no partial tag can survive. */
  function StripTagsStrict(s: string): (r: string)
    ensures '<' !in r && '>' !in r
    ensures forall x :: x in r ==> x in s
  {
    ReplaceAll(ReplaceAll(StripTags(s), '<', ""), '>', "")
  }

  /** Where the tag pattern already removed every bracket, the strict strip
      and the strip agree. */
  lemma StripTagsStrictAgrees(s: string)
    requires '<' !in StripTags(s) && '>' !in StripTags(s)
    ensures StripTagsStrict(s) == StripTags(s)
  {
  }

  lemma StripTagsStrictIdempotent(s: string)
    ensures StripTagsStrict(StripTagsStrict(s)) == StripTagsStrict(s)
  {
    var r := StripTagsStrict(s);
    StripTagsKeepsUnclosed(r);
  }

  /** An unterminated tag loses its `<` and nothing else. */
  lemma {:induction false} StripTagsStrictUnclosed(a: string, b: string)
    requires '<' !in a && '>' !in a && '<' !in b && '>' !in b
    ensures StripTagsStrict(a + "<" + b) == a + b
  {
    var s := a + "<" + b;
    StripTagsKeepsUnclosed(s);
    ReplaceAllConcat(a + "<", b, '<', "");
    ReplaceAllConcat(a, "<", '<', "");
    ReplaceAllConcat(a, b, '>', "");
  }

  /** A complete tag at the front is deleted. */
  lemma StripTagsDropsTag(name: string, rest: string)
    requires '>' !in name
    ensures StripTags("<" + name + ">" + rest) == StripTags(rest)
  {
    var s := "<" + name + ">" + rest;
    assert s[1..] == name + ">" + rest;
    assert s[1 + |name|] == '>' && s[1..1 + |name|] == name;
    assert CloseAt(s, 1) == 1 + |name|;
    assert s[2 + |name|..] == rest;
  }

  /** A character other than `<` at the front is kept. */
  lemma StripTagsKeepsHead(c: char, rest: string)
    requires c != '<'
    ensures StripTags([c] + rest) == [c] + StripTags(rest)
  {
    assert ([c] + rest)[1..] == rest;
  }

  lemma StripTagsExample(s: string)
    requires s == "<b>hi</b>"
    ensures StripTags(s) == "hi"
  {
    assert s == "<" + "b" + ">" + ("h" + ("i" + ("<" + "/b" + ">" + [])));
    StripTagsDropsTag("b", "h" + ("i" + ("<" + "/b" + ">" + [])));
    StripTagsKeepsHead('h', "i" + ("<" + "/b" + ">" + []));
    StripTagsKeepsHead('i', "<" + "/b" + ">" + []);
    StripTagsDropsTag("/b", []);
  }
}
