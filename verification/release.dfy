/**
 * Release versions as Slack's install directories spell them after `app-`
 * (`4.33.73`): numbers separated by dots, ordered component by component.
 * This is the order in which Slack's releases follow each other, and the one the
 * corrected install locator in module Install picks the newest release by.
 */
module Release {
  import opened Wrappers
  import opened JsNumber

  /** `s.split('.')` */
  function SplitDots(s: string): (parts: seq<string>)
    ensures |parts| >= 1
    ensures forall i :: 0 <= i < |parts| ==> '.' !in parts[i]
    decreases |s|
  {
    if s == [] then [[]]
    else
      var rest := SplitDots(s[1..]);
      if s[0] == '.' then [[]] + rest
      else [[s[0]] + rest[0]] + rest[1..]
  }

  /** `parts.join('.')` */
  function JoinDots(parts: seq<string>): string
    requires |parts| >= 1
    decreases |parts|
  {
    if |parts| == 1 then parts[0] else parts[0] + "." + JoinDots(parts[1..])
  }

  lemma {:induction false} JoinCons(c: char, parts: seq<string>)
    requires |parts| >= 1
    ensures JoinDots([[c] + parts[0]] + parts[1..]) == [c] + JoinDots(parts)
  {
    var q := [[c] + parts[0]] + parts[1..];
    assert q[1..] == parts[1..];
  }

  /** Joining the pieces of a split gives the string back. */
  lemma {:induction false} JoinSplit(s: string)
    ensures JoinDots(SplitDots(s)) == s
    decreases |s|
  {
    if s != [] {
      var rest := SplitDots(s[1..]);
      JoinSplit(s[1..]);
      if s[0] == '.' {
        assert ([[]] + rest)[1..] == rest;
      } else {
        JoinCons(s[0], rest);
      }
      assert s == [s[0]] + s[1..];
    }
  }

  /** Splitting a join of dot-free pieces gives the pieces back. */
  lemma {:induction false} SplitJoin(parts: seq<string>)
    requires |parts| >= 1
    requires forall i :: 0 <= i < |parts| ==> '.' !in parts[i]
    ensures SplitDots(JoinDots(parts)) == parts
    decreases |parts|, |parts[0]|
  {
    if parts[0] != [] {
      var c := parts[0][0];
      var tail := [parts[0][1..]] + parts[1..];
      assert tail[1..] == parts[1..];
      assert parts[0] == [c] + parts[0][1..];
      JoinCons(c, tail);
      assert [[c] + tail[0]] + tail[1..] == parts;
      SplitJoin(tail);
      assert JoinDots(parts)[1..] == JoinDots(tail);
    } else if |parts| > 1 {
      SplitJoin(parts[1..]);
      assert JoinDots(parts) == "." + JoinDots(parts[1..]);
      assert JoinDots(parts)[1..] == JoinDots(parts[1..]);
      assert parts == [[]] + parts[1..];
    }
  }

  /** Each piece must be a non-empty run of digits; the version is their values. */
  function ParseParts(parts: seq<string>): (r: Option<seq<nat>>)
    ensures r.Some? <==> forall i :: 0 <= i < |parts| ==> parts[i] != [] && AllDigits(parts[i])
    ensures r.Some? ==> |r.value| == |parts| && forall i :: 0 <= i < |parts| ==> r.value[i] == ValueOf(parts[i])
    decreases |parts|
  {
    if parts == [] then Some([])
    else if parts[0] == [] || !AllDigits(parts[0]) then None
    else match ParseParts(parts[1..])
      case None => None
      case Some(vs) => Some([ValueOf(parts[0])] + vs)
  }

  /** A version string such as `4.33.73`; `None` when it is not digits separated by single dots. */
  function ParseVersion(s: string): Option<seq<nat>> {
    ParseParts(SplitDots(s))
  }

  /** The way Slack writes a version: its components in decimal, separated by dots. */
  function FormatVersion(v: seq<nat>): string
    requires |v| >= 1
  {
    JoinDots(seq(|v|, i requires 0 <= i < |v| => Decimal(v[i])))
  }

  /** A written version reads back as itself. */
  lemma FormatParse(v: seq<nat>)
    requires |v| >= 1
    ensures ParseVersion(FormatVersion(v)) == Some(v)
  {
    var parts := seq(|v|, i requires 0 <= i < |v| => Decimal(v[i]));
    forall i | 0 <= i < |parts|
      ensures '.' !in parts[i] && ValueOf(parts[i]) == v[i]
    {
      DecimalRoundTrip(v[i]);
    }
    SplitJoin(parts);
    assert ParseParts(parts).Some?;
    assert ParseParts(parts).value == v;
  }

  /** A version that parses is written back as it was exactly when no component has a leading zero. */
  lemma ParseFormat(s: string, v: seq<nat>)
    requires ParseVersion(s) == Some(v)
    ensures |v| >= 1
    ensures FormatVersion(v) == s <==> forall i :: 0 <= i < |SplitDots(s)| ==> Canonical(SplitDots(s)[i])
  {
    var parts := SplitDots(s);
    var written := seq(|v|, i requires 0 <= i < |v| => Decimal(v[i]));
    forall i | 0 <= i < |parts|
      ensures written[i] == parts[i] <==> Canonical(parts[i])
    {
      NumeralRoundTrip(parts[i]);
    }
    JoinSplit(s);
    if FormatVersion(v) == s {
      FormatParse(v);
      SplitJoin(written);
      assert written == parts;
    }
    if forall i :: 0 <= i < |parts| ==> Canonical(parts[i]) {
      assert written == parts;
    }
  }

  /** `a` is an earlier release than `b`: lexicographic order, a proper prefix coming first. */
  predicate Older(a: seq<nat>, b: seq<nat>)
    decreases |a|
  {
    if a == [] then b != []
    else if b == [] then false
    else if a[0] != b[0] then a[0] < b[0]
    else Older(a[1..], b[1..])
  }

  lemma {:induction false} OlderIrreflexive(a: seq<nat>)
    ensures !Older(a, a)
    decreases |a|
  {
    if a != [] {
      OlderIrreflexive(a[1..]);
    }
  }

  lemma {:induction false} OlderAsymmetric(a: seq<nat>, b: seq<nat>)
    ensures !(Older(a, b) && Older(b, a))
    decreases |a|
  {
    if a != [] && b != [] && a[0] == b[0] {
      OlderAsymmetric(a[1..], b[1..]);
    }
  }

  lemma {:induction false} OlderTransitive(a: seq<nat>, b: seq<nat>, c: seq<nat>)
    requires Older(a, b) && Older(b, c)
    ensures Older(a, c)
    decreases |a|
  {
    if a != [] && a[0] == b[0] && b[0] == c[0] {
      OlderTransitive(a[1..], b[1..], c[1..]);
    }
  }

  /** Two different versions are always ordered one way or the other. */
  lemma {:induction false} OlderTotal(a: seq<nat>, b: seq<nat>)
    ensures a == b || Older(a, b) || Older(b, a)
    decreases |a|
  {
    if a != [] && b != [] && a[0] == b[0] {
      OlderTotal(a[1..], b[1..]);
      if a[1..] == b[1..] {
        assert a == [a[0]] + a[1..] && b == [b[0]] + b[1..];
      }
    }
  }
}
