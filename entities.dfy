/** HTML entity encoding as the sanitizers write it: a chain of global
    `.replace` calls, one per special character, each over the whole string.

    A chain is given as a table of (character, entity) steps in call order.
    The chain is compared with the one-pass encoder that maps each input
    character to its entity, and with the decoder that maps entities back. */
module Entities {
  import opened JsString

  /** One step `.replace(/ch/g, name)` of an encoding chain. */
  datatype Entity = Entity(ch: char, name: string)

  /** The chain of sanitizeHtmlServer's escape mode, in call order. */
  const HtmlEntities: seq<Entity> := [
    Entity('&', "&amp;"), Entity('<', "&lt;"), Entity('>', "&gt;"),
    Entity('"', "&quot;"), Entity('\'', "&#x27;")]

  /** The chain of sanitizeText: the same five steps, then the forward slash. */
  const TextEntities: seq<Entity> := HtmlEntities + [Entity('/', "&#x2F;")]

  /** The same five steps as HtmlEntities with the ampersand step moved last. */
  const AmpersandLast: seq<Entity> := [
    Entity('<', "&lt;"), Entity('>', "&gt;"), Entity('"', "&quot;"),
    Entity('\'', "&#x27;"), Entity('&', "&amp;")]

  predicate IsTarget(table: seq<Entity>, c: char)
  {
    exists k :: 0 <= k < |table| && table[k].ch == c
  }

  predicate InSomeName(table: seq<Entity>, c: char)
  {
    exists k :: 0 <= k < |table| && c in table[k].name
  }

  /** No step's replacement text holds the character a later step replaces.
      This is the order a chain needs to act as a one-pass encoder. */
  predicate LaterTargetsAbsent(table: seq<Entity>)
  {
    forall i, j :: 0 <= i < j < |table| ==> table[j].ch !in table[i].name
  }

  /** `&` is replaced, and every replacement text is an `&` followed by no
      other `&`: the shape of an HTML character reference. */
  predicate AmpersandLed(table: seq<Entity>)
  {
    && IsTarget(table, '&')
    && forall k :: 0 <= k < |table| ==>
         |table[k].name| > 0 && table[k].name[0] == '&' && '&' !in table[k].name[1..]
  }

  /** No replacement text is a prefix of (or equal to) another one. */
  predicate PrefixFree(table: seq<Entity>)
  {
    forall i, j :: 0 <= i < |table| && 0 <= j < |table| && i != j ==> !(table[i].name <= table[j].name)
  }

  /** The sequential chain: each step replaces its character in the whole
      output of the previous step. */
  function ReplaceChain(table: seq<Entity>, s: string): (r: string)
  {
    if table == [] then s
    else ReplaceChain(table[1..], ReplaceAll(s, table[0].ch, table[0].name))
  }

  /** A character absent from the input that no step writes stays absent,
      and a step's character is absent from the result when neither that
      step nor any later one writes it back. Both hold in any step order. */
  lemma {:induction false} ReplaceChainRemoves(table: seq<Entity>, s: string)
    ensures forall c :: c !in s && !InSomeName(table, c) ==> c !in ReplaceChain(table, s)
    ensures forall k :: 0 <= k < |table| && (forall j :: k <= j < |table| ==> table[k].ch !in table[j].name)
              ==> table[k].ch !in ReplaceChain(table, s)
  {
    if table != [] {
      var rest := table[1..];
      ReplaceChainRemoves(rest, ReplaceAll(s, table[0].ch, table[0].name));
      assert forall k :: 1 <= k < |table| ==> table[k] == rest[k - 1];
      assert forall c :: InSomeName(rest, c) ==> InSomeName(table, c) by {
        forall c | InSomeName(rest, c) ensures InSomeName(table, c) {
          var k :| 0 <= k < |rest| && c in rest[k].name;
          assert table[k + 1] == rest[k];
        }
      }
      assert forall c :: !InSomeName(rest, c) && c !in table[0].name ==> !InSomeName(table, c) by {
        forall c | !InSomeName(rest, c) && c !in table[0].name ensures !InSomeName(table, c) {
        }
      }
    }
  }

  /** The replacement of one character: the text of the first step for it,
      or the character itself when no step replaces it. */
  function EncodeChar(table: seq<Entity>, c: char): (r: string)
    ensures !IsTarget(table, c) ==> r == [c]
    ensures IsTarget(table, c) ==> exists k :: 0 <= k < |table| && table[k].ch == c && r == table[k].name
  {
    if table == [] then [c]
    else if table[0].ch == c then table[0].name
    else
      var r := EncodeChar(table[1..], c);
      assert IsTarget(table[1..], c) ==> exists k :: 0 <= k < |table| && table[k].ch == c && r == table[k].name by {
        if IsTarget(table[1..], c) {
          var k :| 0 <= k < |table[1..]| && table[1..][k].ch == c && r == table[1..][k].name;
          assert table[k + 1] == table[1..][k];
        }
      }
      assert IsTarget(table, c) ==> IsTarget(table[1..], c) by {
        if IsTarget(table, c) {
          var k :| 0 <= k < |table| && table[k].ch == c;
          assert k != 0 && table[1..][k - 1] == table[k];
        }
      }
      r
  }

  /** The one-pass encoder: every character replaced by its EncodeChar. */
  function Encode(table: seq<Entity>, s: string): (r: string)
    ensures forall x :: x in r ==> (x in s && !IsTarget(table, x)) || InSomeName(table, x)
  {
    if s == [] then []
    else
      var head := EncodeChar(table, s[0]);
      var r := head + Encode(table, s[1..]);
      assert forall x :: x in head ==> (x in s && !IsTarget(table, x)) || InSomeName(table, x);
      r
  }

  /** The first step whose (non-empty) replacement text begins `r`. */
  function Lookup(table: seq<Entity>, r: string): (e: Option<Entity>)
    ensures e.Some? ==> e.value in table && 0 < |e.value.name| && e.value.name <= r
    ensures e.None? ==> forall k :: 0 <= k < |table| && 0 < |table[k].name| ==> !(table[k].name <= r)
  {
    if table == [] then None
    else if 0 < |table[0].name| && table[0].name <= r then Some(table[0])
    else
      var e := Lookup(table[1..], r);
      assert forall k :: 1 <= k < |table| ==> table[k] == table[1..][k - 1];
      e
  }

  /** The decoder: each replacement text at the front of `r` turns back into
      its character; any other character is kept. */
  function Decode(table: seq<Entity>, r: string): (d: string)
    decreases |r|
  {
    if r == [] then []
    else
      match Lookup(table, r)
      case Some(e) => [e.ch] + Decode(table, r[|e.name|..])
      case None => [r[0]] + Decode(table, r[1..])
  }

  // ---------------------------------------------------------------------
  // The chain equals the one-pass encoder when no later target is written.

  lemma {:induction false} ReplaceChainConcat(table: seq<Entity>, a: string, b: string)
    ensures ReplaceChain(table, a + b) == ReplaceChain(table, a) + ReplaceChain(table, b)
  {
    if table != [] {
      var e := table[0];
      ReplaceAllConcat(a, b, e.ch, e.name);
      ReplaceChainConcat(table[1..], ReplaceAll(a, e.ch, e.name), ReplaceAll(b, e.ch, e.name));
    }
  }

  /** A chain none of whose characters occur in `s` leaves `s` alone. */
  lemma {:induction false} ReplaceChainAbsent(table: seq<Entity>, s: string)
    requires forall k :: 0 <= k < |table| ==> table[k].ch !in s
    ensures ReplaceChain(table, s) == s
  {
    if table != [] {
      assert forall k :: 0 <= k < |table[1..]| ==> table[1..][k] == table[k + 1];
      ReplaceChainAbsent(table[1..], s);
    }
  }

  lemma {:induction false} ReplaceChainChar(table: seq<Entity>, c: char)
    requires LaterTargetsAbsent(table)
    ensures ReplaceChain(table, [c]) == EncodeChar(table, c)
  {
    if table != [] {
      var e := table[0];
      assert forall k :: 0 <= k < |table[1..]| ==> table[1..][k] == table[k + 1];
      if e.ch == c {
        assert [c][1..] == [];
        assert ReplaceAll([c], e.ch, e.name) == e.name;
        ReplaceChainAbsent(table[1..], e.name);
      } else {
        ReplaceChainChar(table[1..], c);
      }
    }
  }

  /** The sequential `.replace` chain is a one-pass per-character map
      whenever no replacement text holds a later step's character. */
  lemma {:induction false} ReplaceChainIsEncode(table: seq<Entity>, s: string)
    requires LaterTargetsAbsent(table)
    ensures ReplaceChain(table, s) == Encode(table, s)
  {
    if s != [] {
      assert s == [s[0]] + s[1..];
      ReplaceChainConcat(table, [s[0]], s[1..]);
      ReplaceChainChar(table, s[0]);
      ReplaceChainIsEncode(table, s[1..]);
      assert Encode(table, s) == EncodeChar(table, s[0]) + Encode(table, s[1..]);
    } else {
      ReplaceChainAbsent(table, s);
    }
  }

  // ---------------------------------------------------------------------
  // Decoding the one-pass encoding gives back the input.

  /** With prefix-free replacement texts, the only step whose text begins
      `table[k].name + t` is step `k`. */
  lemma LookupFindsOwnName(table: seq<Entity>, k: nat, t: string)
    requires PrefixFree(table) && k < |table| && 0 < |table[k].name|
    ensures Lookup(table, table[k].name + t) == Some(table[k])
  {
    var r := table[k].name + t;
    assert table[k].name <= r;
    var e := Lookup(table, r);
    var i :| 0 <= i < |table| && table[i] == e.value;
  }

  lemma DecodeEncodeChar(table: seq<Entity>, c: char, t: string)
    requires AmpersandLed(table) && PrefixFree(table)
    ensures Decode(table, EncodeChar(table, c) + t) == [c] + Decode(table, t)
  {
    var r := EncodeChar(table, c) + t;
    if IsTarget(table, c) {
      var k :| 0 <= k < |table| && table[k].ch == c && EncodeChar(table, c) == table[k].name;
      LookupFindsOwnName(table, k, t);
      assert r[|table[k].name|..] == t;
    } else {
      assert c != '&';
      assert r == [c] + t && r[1..] == t;
      assert Lookup(table, r).None?;
    }
  }

  /** Decoding undoes the one-pass encoding of every string. */
  lemma {:induction false} DecodeEncode(table: seq<Entity>, s: string)
    requires AmpersandLed(table) && PrefixFree(table)
    ensures Decode(table, Encode(table, s)) == s
  {
    if s != [] {
      DecodeEncodeChar(table, s[0], Encode(table, s[1..]));
      DecodeEncode(table, s[1..]);
    }
  }

  // ---------------------------------------------------------------------
  // Every `&` of an encoding begins a replacement text.

  predicate EntityAt(table: seq<Entity>, r: string, i: nat)
    requires i <= |r|
  {
    exists k :: 0 <= k < |table| && table[k].name <= r[i..]
  }

  /** Every `&` in `r` is the start of one of the table's replacement texts. */
  predicate AmpersandsEscaped(table: seq<Entity>, r: string)
  {
    forall i :: 0 <= i < |r| && r[i] == '&' ==> EntityAt(table, r, i)
  }

  lemma AmpersandsEscapedConcat(table: seq<Entity>, a: string, b: string)
    requires AmpersandsEscaped(table, a) && AmpersandsEscaped(table, b)
    ensures AmpersandsEscaped(table, a + b)
  {
    var r := a + b;
    forall i | 0 <= i < |r| && r[i] == '&' ensures EntityAt(table, r, i) {
      if i < |a| {
        var k :| 0 <= k < |table| && table[k].name <= a[i..];
        assert a[i..] <= r[i..];
      } else {
        var k :| 0 <= k < |table| && table[k].name <= b[i - |a|..];
        assert r[i..] == b[i - |a|..];
      }
    }
  }

  lemma {:induction false} EncodeEscapesAmpersands(table: seq<Entity>, s: string)
    requires AmpersandLed(table)
    ensures AmpersandsEscaped(table, Encode(table, s))
  {
    if s != [] {
      var head := EncodeChar(table, s[0]);
      if IsTarget(table, s[0]) {
        var k :| 0 <= k < |table| && table[k].ch == s[0] && head == table[k].name;
        forall i | 0 <= i < |head| && head[i] == '&' ensures EntityAt(table, head, i) {
          assert head[i..] == head;
        }
      }
      EncodeEscapesAmpersands(table, s[1..]);
      AmpersandsEscapedConcat(table, head, Encode(table, s[1..]));
    }
  }

  /** A replaced character that no replacement text contains never appears
      in an encoding. */
  lemma EncodeOmits(table: seq<Entity>, s: string, c: char)
    requires IsTarget(table, c) && !InSomeName(table, c)
    ensures c !in Encode(table, s)
  {
  }

  // ---------------------------------------------------------------------
  // The two chains of the sanitizers, and why the ampersand goes first.

  /** The six steps of TextEntities, written out. */
  lemma TextEntitiesLiteral()
    ensures TextEntities == [
      Entity('&', "&amp;"), Entity('<', "&lt;"), Entity('>', "&gt;"),
      Entity('"', "&quot;"), Entity('\'', "&#x27;"), Entity('/', "&#x2F;")]
  {
  }

  /** `< > " ' /` are replaced by TextEntities and appear in none of its
      replacement texts. */
  lemma TextEntitiesPlainNames(c: char)
    requires c == '<' || c == '>' || c == '"' || c == '\'' || c == '/'
    ensures IsTarget(TextEntities, c) && !InSomeName(TextEntities, c)
  {
    TextEntitiesLiteral();
    var t := TextEntities;
    forall k | 0 <= k < |t| ensures c !in t[k].name {
    }
    if c == '<' {
      assert t[1].ch == c;
    } else if c == '>' {
      assert t[2].ch == c;
    } else if c == '"' {
      assert t[3].ch == c;
    } else if c == '\'' {
      assert t[4].ch == c;
    } else {
      assert t[5].ch == c;
    }
  }

  /** `< > " '` are replaced by HtmlEntities and appear in none of its
      replacement texts. */
  lemma HtmlEntitiesPlainNames(c: char)
    requires c == '<' || c == '>' || c == '"' || c == '\''
    ensures IsTarget(HtmlEntities, c) && !InSomeName(HtmlEntities, c)
  {
    TextEntitiesPlainNames(c);
    assert forall k :: 0 <= k < |HtmlEntities| ==> HtmlEntities[k] == TextEntities[k];
    var k :| 0 <= k < |TextEntities| && TextEntities[k].ch == c;
    assert k < 5;
  }

  /** Each pair of names differs at a position both have, or the first is longer. */
  lemma TextNamesPrefixFree()
    ensures PrefixFree(TextEntities)
  {
    TextEntitiesLiteral();
    var t := TextEntities;
    forall i, j | 0 <= i < |t| && 0 <= j < |t| && i != j ensures !(t[i].name <= t[j].name) {
      var a, b := t[i].name, t[j].name;
      if (i == 4 && j == 5) || (i == 5 && j == 4) {
        assert a[4] != b[4];
      } else {
        assert a[1] != b[1] || |a| > |b|;
      }
    }
  }

  lemma TextNamesAmpersandLed()
    ensures AmpersandLed(TextEntities)
  {
    TextEntitiesLiteral();
    var t := TextEntities;
    assert t[0].ch == '&';
    forall k | 0 <= k < |t| ensures |t[k].name| > 0 && t[k].name[0] == '&' && '&' !in t[k].name[1..] {
    }
  }

  lemma TextLaterTargetsAbsent()
    ensures LaterTargetsAbsent(TextEntities)
  {
    TextEntitiesLiteral();
    var t := TextEntities;
    forall i, j | 0 <= i < j < |t| ensures t[j].ch !in t[i].name {
    }
  }

  lemma TextEntitiesWellFormed()
    ensures LaterTargetsAbsent(TextEntities) && AmpersandLed(TextEntities) && PrefixFree(TextEntities)
  {
    TextLaterTargetsAbsent();
    TextNamesAmpersandLed();
    TextNamesPrefixFree();
  }

  lemma HtmlEntitiesWellFormed()
    ensures LaterTargetsAbsent(HtmlEntities) && AmpersandLed(HtmlEntities) && PrefixFree(HtmlEntities)
  {
    TextEntitiesWellFormed();
    assert forall k :: 0 <= k < |HtmlEntities| ==> HtmlEntities[k] == TextEntities[k];
    assert HtmlEntities[0].ch == '&';
  }

  /** The first four steps of AmpersandLast encode `"` as intended. */
  lemma AmpersandLastBeforeAmpersand()
    ensures ReplaceChain(AmpersandLast[..4], "\"") == "&quot;"
  {
    var first, quot := AmpersandLast[..4], "&quot;";
    assert LaterTargetsAbsent(first) && first[2] == Entity('"', quot) by {
      assert first == [Entity('<', "&lt;"), Entity('>', "&gt;"), Entity('"', quot), Entity('\'', "&#x27;")];
    }
    assert EncodeChar(first, '"') == quot by {
      assert first[1..][1..][0] == first[2];
    }
    ReplaceChainChar(first, '"');
  }

  /** The last step of AmpersandLast rewrites the `&` of `&quot;`. */
  lemma AmpersandLastFinalStep(last: seq<Entity>, quot: string)
    requires last == [Entity('&', "&amp;")] && quot == "&quot;"
    ensures ReplaceChain(last, quot) == "&amp;quot;"
  {
    AmpersandStepReencodes(quot);
    assert quot[1..] == "quot;";
  }

  /** The ampersand step on an entity name re-encodes its leading `&`. */
  lemma AmpersandStepReencodes(name: string)
    requires name != [] && name[0] == '&' && '&' !in name[1..]
    ensures ReplaceChain([Entity('&', "&amp;")], name) == "&amp;" + name[1..]
  {
    ReplaceChainOne(Entity('&', "&amp;"), name);
    ReplaceAllHead(name, '&', "&amp;");
  }

  /** A one-step chain is a single global replace. */
  lemma ReplaceChainOne(e: Entity, s: string)
    ensures ReplaceChain([e], s) == ReplaceAll(s, e.ch, e.name)
  {
    assert [e][1..] == [];
  }

  /** Run last, the ampersand step re-encodes the `&` of the entity an
      earlier step wrote: `"` becomes `&amp;quot;`, not `&quot;`, so this
      order is not a one-pass encoder. */
  lemma AmpersandLastDoubleEncodes()
    ensures !LaterTargetsAbsent(AmpersandLast)
    ensures ReplaceChain(AmpersandLast, "\"") == "&amp;quot;"
  {
    assert AmpersandLast[4].ch == '&' && '&' in AmpersandLast[2].name;
    AmpersandLastBeforeAmpersand();
    assert AmpersandLast[4..] == [Entity('&', "&amp;")];
    AmpersandLastFinalStep(AmpersandLast[4..], "&quot;");
    ReplaceChainSplit(AmpersandLast, 4, "\"");
  }

  /** Even run last, the ampersand step leaves no raw `< > " '`: the
      wrong order over-encodes but does not let markup through. */
  lemma AmpersandLastOmits(s: string)
    ensures '<' !in ReplaceChain(AmpersandLast, s) && '>' !in ReplaceChain(AmpersandLast, s)
    ensures '"' !in ReplaceChain(AmpersandLast, s) && '\'' !in ReplaceChain(AmpersandLast, s)
  {
    AmpersandLastNames();
    ReplaceChainRemoves(AmpersandLast, s);
    assert AmpersandLast[0].ch == '<' && AmpersandLast[1].ch == '>';
    assert AmpersandLast[2].ch == '"' && AmpersandLast[3].ch == '\'';
  }

  /** No name in AmpersandLast holds `< > " '`. */
  lemma AmpersandLastNames()
    ensures forall j :: 0 <= j < |AmpersandLast| ==>
              '<' !in AmpersandLast[j].name && '>' !in AmpersandLast[j].name
              && '"' !in AmpersandLast[j].name && '\'' !in AmpersandLast[j].name
  {
    forall j | 0 <= j < |AmpersandLast|
      ensures '<' !in AmpersandLast[j].name && '>' !in AmpersandLast[j].name
              && '"' !in AmpersandLast[j].name && '\'' !in AmpersandLast[j].name
    {
      var e := AmpersandLast[j];
      assert e.name in ["&lt;", "&gt;", "&quot;", "&#x27;", "&amp;"];
    }
  }

  /** A chain runs as its first `n` steps followed by the rest. */
  lemma {:induction false} ReplaceChainSplit(table: seq<Entity>, n: nat, s: string)
    requires n <= |table|
    ensures ReplaceChain(table, s) == ReplaceChain(table[n..], ReplaceChain(table[..n], s))
  {
    if n == 0 {
      assert table[..0] == [] && table[0..] == table;
    } else {
      var e := table[0];
      var s1 := ReplaceAll(s, e.ch, e.name);
      ReplaceChainSplit(table[1..], n - 1, s1);
      assert table[1..][n - 1..] == table[n..];
      assert table[..n][0] == e && table[..n][1..] == table[1..][..n - 1];
      assert ReplaceChain(table[..n], s) == ReplaceChain(table[1..][..n - 1], s1);
    }
  }
}
