/** XML text escaping and its inverse, both written as chains of whole-string replacements. */
module XmlText {

  predicate StartsWith(s: string, p: string) {
    |p| <= |s| && s[..|p|] == p
  }

  /** Every occurrence, left to right, without overlap. */
  function ReplaceAll(s: string, pattern: string, replacement: string): string
    requires pattern != ""
  {
    if s == "" then ""
    else if StartsWith(s, pattern) then replacement + ReplaceAll(s[|pattern|..], pattern, replacement)
    else [s[0]] + ReplaceAll(s[1..], pattern, replacement)
  }

  predicate IsSpecial(c: char) {
    c == '&' || c == '<' || c == '>' || c == '"' || c == '\''
  }

  type Special = c: char | IsSpecial(c) witness '&'

  function Entity(c: Special): (e: string)
    ensures |e| >= 4 && e[0] == '&'
    ensures forall i :: 0 < i < |e| ==> !IsSpecial(e[i])
  {
    match c
    case '&' => "&amp;"
    case '<' => "&lt;"
    case '>' => "&gt;"
    case '"' => "&quot;"
    case _ => "&apos;"
  }

  function EscapeXml(value: string): string {
    var a := ReplaceAll(value, ['&'], Entity('&'));
    var b := ReplaceAll(a, ['<'], Entity('<'));
    var c := ReplaceAll(b, ['>'], Entity('>'));
    var d := ReplaceAll(c, ['"'], Entity('"'));
    ReplaceAll(d, ['\''], Entity('\''))
  }

  function DecodeXml(value: string): string {
    var a := ReplaceAll(value, Entity('"'), ['"']);
    var b := ReplaceAll(a, Entity('\''), ['\'']);
    var c := ReplaceAll(b, Entity('<'), ['<']);
    var d := ReplaceAll(c, Entity('>'), ['>']);
    ReplaceAll(d, Entity('&'), ['&'])
  }

  // ----- one pass instead of five -----

  /** Each character on its own, those in the set as their entity. */
  function Encoded(s: string, coded: set<Special>): string {
    if s == "" then ""
    else (if s[0] in coded then Entity(s[0]) else [s[0]]) + Encoded(s[1..], coded)
  }

  /** Each entity of the set at the place where it stands, in one pass from the left. */
  ghost function Decoded(s: string, coded: set<Special>): string {
    if s == "" then ""
    else if c: Special :| c in coded && StartsWith(s, Entity(c)) then
      [c] + Decoded(s[|Entity(c)|..], coded)
    else [s[0]] + Decoded(s[1..], coded)
  }

  lemma EntityIsUnique(s: string, c: Special, d: Special)
    requires StartsWith(s, Entity(c)) && StartsWith(s, Entity(d))
    ensures c == d
  {
    assert s[1] == Entity(c)[1] == Entity(d)[1] && s[2] == Entity(c)[2] == Entity(d)[2];
  }

  // ----- replacing one kind of special -----

  /** Text without the first character of the pattern is passed over. */
  lemma {:induction false} PassOver(front: string, rest: string, pattern: string, replacement: string)
    requires pattern != "" && pattern[0] !in front
    ensures ReplaceAll(front + rest, pattern, replacement) == front + ReplaceAll(rest, pattern, replacement)
  {
    if front == "" {
      assert front + rest == rest;
    } else {
      assert (front + rest)[1..] == front[1..] + rest;
      PassOver(front[1..], rest, pattern, replacement);
      assert front == [front[0]] + front[1..];
    }
  }

  /** An occurrence in front is replaced. */
  lemma ReplaceFront(pattern: string, rest: string, replacement: string)
    requires pattern != ""
    ensures ReplaceAll(pattern + rest, pattern, replacement) == replacement + ReplaceAll(rest, pattern, replacement)
  {
    assert (pattern + rest)[..|pattern|] == pattern && (pattern + rest)[|pattern|..] == rest;
  }

  /** One escaping step: a further special is coded, provided the entities already there do not contain it. */
  lemma {:induction false} EscapeStep(s: string, coded: set<Special>, c: Special)
    requires c !in coded && (c == '&' ==> coded == {})
    ensures ReplaceAll(Encoded(s, coded), [c], Entity(c)) == Encoded(s, coded + {c})
  {
    if s != "" {
      var rest := Encoded(s[1..], coded);
      EscapeStep(s[1..], coded, c);
      if s[0] == c {
        ReplaceFront([c], rest, Entity(c));
      } else {
        PassOver(if s[0] in coded then Entity(s[0]) else [s[0]], rest, [c], Entity(c));
      }
    }
  }

  lemma {:induction false} NothingCoded(s: string)
    ensures Encoded(s, {}) == s
  {
    if s != "" {
      NothingCoded(s[1..]);
      assert s == [s[0]] + s[1..];
    }
  }

  const ALL: set<Special> := {'&', '<', '>', '"', '\''}

  /** The five replacements together code every special character where it stands, each exactly once. */
  lemma EscapeIsOnePass(value: string)
    ensures EscapeXml(value) == Encoded(value, ALL)
  {
    NothingCoded(value);
    var none: set<Special> := {};
    var one := none + {'&'};
    var two := one + {'<'};
    var three := two + {'>'};
    var four := three + {'"'};
    EscapeStep(value, none, '&');
    EscapeStep(value, one, '<');
    EscapeStep(value, two, '>');
    EscapeStep(value, three, '"');
    EscapeStep(value, four, '\'');
    assert four + {'\''} == ALL;
  }

  lemma {:induction false} EncodedConcat(s: string, t: string, coded: set<Special>)
    ensures Encoded(s + t, coded) == Encoded(s, coded) + Encoded(t, coded)
  {
    if s == "" {
      assert s + t == t;
    } else {
      assert (s + t)[1..] == s[1..] + t;
      EncodedConcat(s[1..], t, coded);
    }
  }

  /** Escaping goes character by character, and this is what becomes of each. */
  lemma EscapesEach(s: string, t: string, c: char)
    ensures EscapeXml(s + t) == EscapeXml(s) + EscapeXml(t)
    ensures EscapeXml([c]) ==
            if c == '&' then "&amp;" else if c == '<' then "&lt;" else if c == '>' then "&gt;"
            else if c == '"' then "&quot;" else if c == '\'' then "&apos;" else [c]
  {
    EscapeIsOnePass(s);
    EscapeIsOnePass(t);
    EscapeIsOnePass(s + t);
    EncodedConcat(s, t, ALL);
    EscapeIsOnePass([c]);
    assert [c][1..] == "";
  }

  /** The result holds no character that could end an attribute or open a tag. */
  lemma {:induction false} EscapedIsInert(value: string)
    ensures forall i :: 0 <= i < |EscapeXml(value)| ==>
                          EscapeXml(value)[i] != '<' && EscapeXml(value)[i] != '>'
                          && EscapeXml(value)[i] != '"' && EscapeXml(value)[i] != '\''
  {
    EscapeIsOnePass(value);
    EncodedIsInert(value);
  }

  predicate Inert(s: string) {
    forall i :: 0 <= i < |s| ==> s[i] == '&' || !IsSpecial(s[i])
  }

  lemma {:induction false} EncodedIsInert(s: string)
    ensures Inert(Encoded(s, ALL))
  {
    if s != "" {
      EncodedIsInert(s[1..]);
      assert Inert(if s[0] in ALL then Entity(s[0]) else [s[0]]);
    }
  }

  // ----- decoding in one pass -----

  lemma DecodesEntity(s: string, coded: set<Special>, c: Special)
    requires c in coded && StartsWith(s, Entity(c))
    ensures Decoded(s, coded) == [c] + Decoded(s[|Entity(c)|..], coded)
  {
    forall d: Special | StartsWith(s, Entity(d))
      ensures d == c
    {
      EntityIsUnique(s, c, d);
    }
  }

  /** What decoding shows of ordinary characters was already there. */
  lemma {:induction false} OrdinaryWasThere(s: string, coded: set<Special>, w: string)
    requires StartsWith(Decoded(s, coded), w) && forall i :: 0 <= i < |w| ==> !IsSpecial(w[i])
    ensures StartsWith(s, w)
    decreases |w|
  {
    if w != "" {
      FrontAndRest(Decoded(s, coded), w);
      if c: Special :| c in coded && StartsWith(s, Entity(c)) {
        DecodesEntity(s, coded, c);
        assert false;
      }
      assert Decoded(s, coded)[1..] == Decoded(s[1..], coded);
      OrdinaryWasThere(s[1..], coded, w[1..]);
      FrontAndRest(s, w);
    }
  }

  lemma Regroup(e: string, rest: string)
    requires e != ""
    ensures [e[0]] + (e[1..] + rest) == e + rest && (e + rest)[1..] == e[1..] + rest
  {
  }

  lemma CopiesOne(c: char, rest: string, coded: set<Special>)
    requires c != '&'
    ensures Decoded([c] + rest, coded) == [c] + Decoded(rest, coded)
  {
    assert ([c] + rest)[1..] == rest;
  }

  /** Ordinary characters are copied. */
  lemma {:induction false} CopiesOrdinary(front: string, rest: string, coded: set<Special>)
    requires forall i :: 0 <= i < |front| ==> front[i] != '&'
    ensures Decoded(front + rest, coded) == front + Decoded(rest, coded)
  {
    if front == "" {
      assert front + rest == rest;
    } else {
      Regroup(front, rest);
      CopiesOne(front[0], front[1..] + rest, coded);
      CopiesOrdinary(front[1..], rest, coded);
      Regroup(front, Decoded(rest, coded));
    }
  }

  lemma OnlyThisEntity(s: string, coded: set<Special>, c: Special)
    requires c !in coded && StartsWith(s, Entity(c))
    ensures forall d: Special :: d in coded ==> !StartsWith(s, Entity(d))
  {
    forall d: Special | StartsWith(s, Entity(d))
      ensures d == c
    {
      EntityIsUnique(s, c, d);
    }
  }

  /** An entity outside the set is left as it stands. */
  lemma KeepsOther(e: string, rest: string, coded: set<Special>, c: Special)
    requires c !in coded && e == Entity(c)
    ensures Decoded(e + rest, coded) == e + Decoded(rest, coded)
  {
    var s := e + rest;
    assert s[..|e|] == e;
    OnlyThisEntity(s, coded, c);
    Regroup(e, rest);
    CopiesOrdinary(e[1..], rest, coded);
    Regroup(e, Decoded(rest, coded));
  }

  /** One decoding step: a further kind of entity is decoded, ampersands last. */
  lemma {:induction false} DecodeStep(s: string, coded: set<Special>, c: Special)
    requires c !in coded && '&' !in coded
    ensures ReplaceAll(Decoded(s, coded), Entity(c), [c]) == Decoded(s, coded + {c})
    decreases |s|
  {
    var all := coded + {c};
    if s == "" {
    } else if StartsWith(s, Entity(c)) {
      var rest := s[|Entity(c)|..];
      assert s == Entity(c) + rest;
      KeepsOther(Entity(c), rest, coded, c);
      ReplaceFront(Entity(c), Decoded(rest, coded), [c]);
      DecodeStep(rest, coded, c);
      DecodesEntity(s, all, c);
    } else if d: Special :| d in coded && StartsWith(s, Entity(d)) {
      var rest := s[|Entity(d)|..];
      DecodesEntity(s, coded, d);
      PassOver([d], Decoded(rest, coded), Entity(c), [c]);
      DecodeStep(rest, coded, c);
      DecodesEntity(s, all, d);
    } else {
      DecodeStep(s[1..], coded, c);
      NotFormed(s, coded, c);
    }
  }

  /** Decoding the rest does not complete an entity that was not there. */
  lemma FormedWasThere(s: string, coded: set<Special>, c: Special)
    requires s != "" && StartsWith([s[0]] + Decoded(s[1..], coded), Entity(c))
    ensures StartsWith(s, Entity(c))
  {
    var e, t := Entity(c), Decoded(s[1..], coded);
    FrontAndRest([s[0]] + t, e);
    assert ([s[0]] + t)[1..] == t;
    OrdinaryWasThere(s[1..], coded, e[1..]);
    FrontAndRest(s, e);
  }

  lemma FrontAndRest(s: string, p: string)
    requires s != "" && p != ""
    ensures StartsWith(s, p) <==> s[0] == p[0] && StartsWith(s[1..], p[1..])
  {
    if |p| <= |s| {
      assert s[..|p|] == [s[0]] + s[1..][..|p| - 1];
      assert p == [p[0]] + p[1..];
    }
  }

  lemma NotFormed(s: string, coded: set<Special>, c: Special)
    requires s != "" && !StartsWith(s, Entity(c))
    ensures var t := Decoded(s[1..], coded);
            ReplaceAll([s[0]] + t, Entity(c), [c]) == [s[0]] + ReplaceAll(t, Entity(c), [c])
  {
    var t := Decoded(s[1..], coded);
    if StartsWith([s[0]] + t, Entity(c)) {
      FormedWasThere(s, coded, c);
    }
    assert ([s[0]] + t)[1..] == t;
  }

  lemma {:induction false} NothingDecoded(s: string)
    ensures Decoded(s, {}) == s
  {
    if s != "" {
      NothingDecoded(s[1..]);
      assert s == [s[0]] + s[1..];
    }
  }

  /** For every string the five replacements together decode each entity where it stands, once, and nothing they produce. */
  lemma DecodeIsOnePass(value: string)
    ensures DecodeXml(value) == Decoded(value, ALL)
  {
    NothingDecoded(value);
    var none: set<Special> := {};
    var one := none + {'"'};
    var two := one + {'\''};
    var three := two + {'<'};
    var four := three + {'>'};
    DecodeStep(value, none, '"');
    DecodeStep(value, one, '\'');
    DecodeStep(value, two, '<');
    DecodeStep(value, three, '>');
    DecodeStep(value, four, '&');
    assert four + {'&'} == ALL;
  }

  // ----- round trip -----

  lemma {:induction false} DecodesEncoded(s: string)
    ensures Decoded(Encoded(s, ALL), ALL) == s
  {
    if s != "" {
      var rest := Encoded(s[1..], ALL);
      DecodesEncoded(s[1..]);
      if s[0] in ALL {
        var e := Entity(s[0]);
        assert (e + rest)[..|e|] == e && (e + rest)[|e|..] == rest;
        DecodesEntity(e + rest, ALL, s[0]);
      } else {
        CopiesOrdinary([s[0]], rest, ALL);
      }
      assert s == [s[0]] + s[1..];
    }
  }

  /** Decoding what was escaped gives every string back. */
  lemma RoundTrip(value: string)
    ensures DecodeXml(EscapeXml(value)) == value
  {
    EscapeIsOnePass(value);
    DecodeIsOnePass(EscapeXml(value));
    DecodesEncoded(value);
  }
}
