/** The QR payload pattern `^user://identiverse\?id=([^&]+)(&firstname=([^&]*))?(&lastname=([^&]*))?`
    written out by hand. It has no end anchor, only `[^&]` classes and optional groups, so
    matching is deterministic: each class takes the longest run it can, and an optional group is
    taken exactly when its literal key comes next. The parser returns groups 1, 3 and 5. */
module QrPayload {

  import opened Wrappers

  const Scheme: string := "user://identiverse?id="
  const FirstNameKey: string := "&firstname="
  const LastNameKey: string := "&lastname="

  /** Groups 1, 3 and 5. A group that took no part in the match is `None`; one that matched
      the empty string is `Some("")`. */
  datatype QrMatch = QrMatch(id: string, firstName: Option<string>, lastName: Option<string>)

  predicate NoAmpersand(s: string)
  {
    forall i :: 0 <= i < |s| ==> s[i] != '&'
  }

  /** The run that the greedy class `[^&]*` takes at the start of `s`: the longest prefix without
      `&`, which ends at the end of `s` or just before an `&`. */
  function Run(s: string): (r: string)
    ensures r <= s && NoAmpersand(r)
    ensures |r| == |s| || s[|r|] == '&'
  {
    if s == [] || s[0] == '&' then [] else [s[0]] + Run(s[1..])
  }

  /** The optional group `(key([^&]*))?` at the start of `s`: its captured value, if taken, and
      the text after it. */
  function OptionalGroup(key: string, s: string): (Option<string>, string)
  {
    if key <= s then
      var v := Run(s[|key|..]);
      (Some(v), s[|key| + |v|..])
    else
      (None, s)
  }

  /** `qrData.match(pattern)`, reduced to the captured groups 1, 3 and 5. */
  function Match(s: string): (r: Option<QrMatch>)
    ensures r.Some? ==> Scheme <= s && r.value.id != []
  {
    if !(Scheme <= s) then None
    else
      var id := Run(s[|Scheme|..]);
      if id == [] then None
      else
        var (first, rest) := OptionalGroup(FirstNameKey, s[|Scheme| + |id|..]);
        var (last, _) := OptionalGroup(LastNameKey, rest);
        Some(QrMatch(id, first, last))
  }

  /** The text an optional group consumed. */
  function Part(key: string, g: Option<string>): string
  {
    match g
    case None => ""
    case Some(v) => key + v
  }

  /** `p` is a prefix of `s` after which no `[^&]` class could take one more character. */
  predicate EndsRun(s: string, p: string)
  {
    p <= s && (|p| == |s| || s[|p|] == '&')
  }

  /** What a match of the pattern against `s` with these groups means, stated on the text:
      the scheme, then a non-empty id, then each optional group that was taken, form a prefix of
      `s` (the rest is ignored); no captured value holds `&`; every `[^&]` run is as long as it
      can be; and a group was skipped only when its key does not come next. */
  ghost predicate IsMatch(s: string, m: QrMatch)
  {
    var a := Scheme + m.id;
    var b := a + Part(FirstNameKey, m.firstName);
    var c := b + Part(LastNameKey, m.lastName);
    && m.id != [] && NoAmpersand(m.id)
    && (m.firstName.Some? ==> NoAmpersand(m.firstName.value))
    && (m.lastName.Some? ==> NoAmpersand(m.lastName.value))
    && c <= s
    && EndsRun(s, a)
    && (if m.firstName.Some? then EndsRun(s, b) else !(a + FirstNameKey <= s))
    && (if m.lastName.Some? then EndsRun(s, c) else !(b + LastNameKey <= s))
  }

  /** `t` occurs in `s` right after its prefix `p` exactly when `t` is a prefix of `s[|p|..]`. */
  lemma PrefixAt(s: string, p: string, t: string)
    requires p <= s
    ensures p + t <= s <==> t <= s[|p|..]
  {
    if p + t <= s {
      assert s[|p|..][..|t|] == (p + t)[|p|..];
    }
    if t <= s[|p|..] {
      assert (p + t) == s[..|p| + |t|];
    }
  }

  /** A string without `&` that ends where a run must end is that run. */
  lemma {:induction false} RunUnique(s: string, v: string)
    requires v <= s && NoAmpersand(v) && (|v| == |s| || s[|v|] == '&')
    ensures Run(s) == v
  {
    if v != [] {
      RunUnique(s[1..], v[1..]);
    }
  }

  /** What `OptionalGroup` does to the text after a prefix `p` of `s`, stated on `s`. */
  lemma GroupAt(s: string, p: string, key: string)
    requires p <= s
    ensures var (g, rest) := OptionalGroup(key, s[|p|..]);
            var q := p + Part(key, g);
            && q <= s && rest == s[|q|..]
            && (if g.Some? then NoAmpersand(g.value) && EndsRun(s, q) else !(p + key <= s))
  {
    PrefixAt(s, p, key);
    var t := s[|p|..];
    if key <= t {
      var u := t[|key|..];
      var v := Run(u);
      assert u == s[|p + key|..];
      PrefixAt(s, p + key, v);
      var q := p + key + v;
      assert p + Part(key, Some(v)) == q;
      assert |q| == |p| + |key| + |v|;
      assert t[|key| + |v|..] == s[|q|..];
      if |v| < |u| {
        assert s[|q|] == u[|v|];
      }
    }
  }

  /** Conversely, a group reading that fits `s` after `p` is the one `OptionalGroup` makes. */
  lemma GroupUnique(s: string, p: string, key: string, g: Option<string>)
    requires p + Part(key, g) <= s
    requires if g.Some? then NoAmpersand(g.value) && EndsRun(s, p + Part(key, g)) else !(p + key <= s)
    ensures OptionalGroup(key, s[|p|..]) == (g, s[|p + Part(key, g)|..])
  {
    assert p <= s by { assert p <= p + Part(key, g); }
    PrefixAt(s, p, key);
    if g.Some? {
      var v := g.value;
      assert p + Part(key, g) == (p + key) + v;
      assert p + key <= s by { assert p + key <= (p + key) + v; }
      PrefixAt(s, p + key, v);
      assert s[|p|..][|key|..] == s[|p + key|..];
      RunUnique(s[|p + key|..], v);
    }
  }

  /** The parser finds a match the pattern defines. */
  lemma MatchSound(s: string)
    requires Match(s).Some?
    ensures IsMatch(s, Match(s).value)
  {
    var m := Match(s).value;
    var a := Scheme + m.id;
    PrefixAt(s, Scheme, m.id);
    assert s[|Scheme| + |m.id|..] == s[|a|..];
    GroupAt(s, a, FirstNameKey);
    var b := a + Part(FirstNameKey, m.firstName);
    GroupAt(s, b, LastNameKey);
  }

  /** ... and no other: a match the pattern defines is the one the parser returns, so the groups
      are determined by the payload. */
  lemma MatchComplete(s: string, m: QrMatch)
    requires IsMatch(s, m)
    ensures Match(s) == Some(m)
  {
    var a := Scheme + m.id;
    var b := a + Part(FirstNameKey, m.firstName);
    var c := b + Part(LastNameKey, m.lastName);
    assert a <= s by { assert a <= b <= c; }
    assert b <= s by { assert b <= c; }
    assert Scheme <= s by { assert Scheme <= a; }
    PrefixAt(s, Scheme, m.id);
    RunUnique(s[|Scheme|..], m.id);
    assert s[|Scheme| + |m.id|..] == s[|a|..];
    GroupUnique(s, a, FirstNameKey, m.firstName);
    GroupUnique(s, b, LastNameKey, m.lastName);
  }

  /** A payload matches exactly when it starts with the scheme and at least one character that
      is not `&` follows. */
  lemma MatchesIff(s: string)
    ensures Match(s).Some? <==> Scheme <= s && |s| > |Scheme| && s[|Scheme|] != '&'
  {
    if Scheme <= s {
      var rest := s[|Scheme|..];
      assert |Run(rest)| == 0 <==> rest == [] || rest[0] == '&';
    }
  }

  /** The first-name group is captured exactly when `&firstname=` comes right after the id. */
  lemma FirstNameOnlyRightAfterId(s: string, m: QrMatch)
    requires Match(s) == Some(m)
    ensures m.firstName.Some? <==> Scheme + m.id + FirstNameKey <= s
  {
    MatchSound(s);
    if m.firstName.Some? {
      var a := Scheme + m.id;
      assert a + FirstNameKey <= a + FirstNameKey + m.firstName.value;
    }
  }

  /** The last-name group is captured exactly when `&lastname=` comes right after the id and
      the first-name group, if any: after any other parameter it is ignored. */
  lemma LastNameOnlyRightAfter(s: string, m: QrMatch)
    requires Match(s) == Some(m)
    ensures m.lastName.Some? <==> Scheme + m.id + Part(FirstNameKey, m.firstName) + LastNameKey <= s
  {
    MatchSound(s);
    if m.lastName.Some? {
      var b := Scheme + m.id + Part(FirstNameKey, m.firstName);
      assert b + LastNameKey <= b + LastNameKey + m.lastName.value;
    }
  }

  /** An instance: a last name that follows some other parameter is not captured. */
  lemma LastNameAfterOtherParameter()
    ensures Match("user://identiverse?id=u1&lang=en&lastname=Doe") == Some(QrMatch("u1", None, None))
  {
    var s := "user://identiverse?id=u1&lang=en&lastname=Doe";
    var m := QrMatch("u1", None, None);
    assert Scheme + "u1" == s[..24];
    assert !(Scheme + "u1" + FirstNameKey <= s) by { assert s[25] != FirstNameKey[1]; }
    assert !(Scheme + "u1" + LastNameKey <= s) by { assert s[27] != LastNameKey[3]; }
    assert IsMatch(s, m);
    MatchComplete(s, m);
  }
}
