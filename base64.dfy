/** Base64 as the browser's `btoa` and `atob` perform it on byte strings: the encoding of
    section 4 of RFC 4648, and the forgiving decode of the WHATWG HTML standard, which removes
    ASCII whitespace, strips one or two `=` from a length that is a multiple of four, refuses a
    remaining length of the form 4k+1 or any character outside the alphabet, and drops the bits
    left over at the end. */
module Base64 {

  import opened Wrappers

  /** One element of a `Uint8Array`, or one code unit of a binary string. */
  type Byte = x: int | 0 <= x < 256

  /** The six-bit value one base64 character stands for. */
  type Sextet = x: int | 0 <= x < 64

  /** The character of the standard alphabet for `i`: `A`-`Z`, `a`-`z`, `0`-`9`, `+`, `/`. */
  function StdChar(i: Sextet): char
  {
    if i < 26 then ('A' as int + i) as char
    else if i < 52 then ('a' as int + i - 26) as char
    else if i < 62 then ('0' as int + i - 52) as char
    else if i == 62 then '+'
    else '/'
  }

  /** The value of a character of the standard alphabet, or `None` for any other character. */
  function StdIndex(c: char): Option<Sextet>
  {
    if 'A' <= c <= 'Z' then Some(c as int - 'A' as int)
    else if 'a' <= c <= 'z' then Some(c as int - 'a' as int + 26)
    else if '0' <= c <= '9' then Some(c as int - '0' as int + 52)
    else if c == '+' then Some(62)
    else if c == '/' then Some(63)
    else None
  }

  /** The two tables are inverse to each other. */
  lemma StdIndexOfChar(i: Sextet)
    ensures StdIndex(StdChar(i)) == Some(i)
  {
  }

  lemma StdCharOfIndex(c: char)
    requires StdIndex(c).Some?
    ensures StdChar(StdIndex(c).value) == c
  {
  }

  /** The padding character is not in the alphabet. */
  lemma PadNotInAlphabet()
    ensures StdIndex('=').None?
  {
  }

  /** Three bytes as four sextets, most significant bits first. */
  function Split3(b0: Byte, b1: Byte, b2: Byte): seq<Sextet>
  {
    [b0 / 4, (b0 % 4) * 16 + b1 / 16, (b1 % 16) * 4 + b2 / 64, b2 % 64]
  }

  /** Four sextets as three bytes. */
  function Join4(i0: Sextet, i1: Sextet, i2: Sextet, i3: Sextet): seq<Byte>
  {
    [i0 * 4 + i1 / 16, (i1 % 16) * 16 + i2 / 4, (i2 % 4) * 64 + i3]
  }

  /** Regrouping the 24 bits of three bytes into sextets and back loses nothing. */
  lemma JoinSplit(b0: Byte, b1: Byte, b2: Byte)
    ensures var q := Split3(b0, b1, b2);
            Join4(q[0], q[1], q[2], q[3]) == [b0, b1, b2]
  {
    var q := Split3(b0, b1, b2);
    assert q[0] as int * 4 + q[1] as int / 16 == b0;
    assert (q[1] as int % 16) * 16 + q[2] as int / 4 == b1;
    assert (q[2] as int % 4) * 64 + q[3] as int == b2;
  }

  /** The sextets of a byte string: full groups of three bytes give four sextets, a final
      group of one or two bytes gives two or three, its missing bits taken as zero. */
  function ToSextets(b: seq<Byte>): (q: seq<Sextet>)
    ensures |q| == 4 * (|b| / 3) + (if |b| % 3 == 0 then 0 else |b| % 3 + 1)
    decreases |b|
  {
    if |b| == 0 then []
    else if |b| == 1 then Split3(b[0], 0, 0)[..2]
    else if |b| == 2 then Split3(b[0], b[1], 0)[..3]
    else Split3(b[0], b[1], b[2]) + ToSextets(b[3..])
  }

  /** The bytes a sextet string packs: a final group of two or three sextets gives one or
      two bytes and its spare bits are dropped. A lone final sextet carries no whole byte and
      is excluded. */
  function Unpack(q: seq<Sextet>): seq<Byte>
    requires |q| % 4 != 1
    decreases |q|
  {
    if |q| == 0 then []
    else if |q| == 2 then Join4(q[0], q[1], 0, 0)[..1]
    else if |q| == 3 then Join4(q[0], q[1], q[2], 0)[..2]
    else Join4(q[0], q[1], q[2], q[3]) + Unpack(q[4..])
  }

  /** A full group of four sextets in front unpacks to its three bytes in front. */
  lemma UnpackGroup(x: seq<Sextet>, r: seq<Sextet>)
    requires |x| == 4 && |r| % 4 != 1
    ensures |x + r| % 4 != 1
    ensures Unpack(x + r) == Join4(x[0], x[1], x[2], x[3]) + Unpack(r)
  {
    var q := x + r;
    assert q[4..] == r;
  }

  /** Unpacking undoes splitting into sextets. */
  lemma {:induction false} UnpackToSextets(b: seq<Byte>)
    ensures |ToSextets(b)| % 4 != 1
    ensures Unpack(ToSextets(b)) == b
    decreases |b|
  {
    if |b| == 1 {
      JoinSplit(b[0], 0, 0);
    } else if |b| == 2 {
      JoinSplit(b[0], b[1], 0);
    } else if |b| >= 3 {
      var x := Split3(b[0], b[1], b[2]);
      var r := ToSextets(b[3..]);
      JoinSplit(b[0], b[1], b[2]);
      UnpackToSextets(b[3..]);
      assert ToSextets(b) == x + r;
      UnpackGroup(x, r);
      assert b == [b[0], b[1], b[2]] + b[3..];
    }
  }

  /** The characters of a sextet string. */
  function Chars(q: seq<Sextet>): (s: string)
    ensures |s| == |q|
    ensures forall i :: 0 <= i < |s| ==> StdIndex(s[i]) == Some(q[i])
  {
    forall i | 0 <= i < |q| {
      StdIndexOfChar(q[i]);
    }
    seq(|q|, i requires 0 <= i < |q| => StdChar(q[i]))
  }

  /** The sextets of a string all of whose characters are in the alphabet, or `None` as soon
      as one is not. */
  function Indices(s: string): (r: Option<seq<Sextet>>)
    ensures r.Some? <==> forall i :: 0 <= i < |s| ==> StdIndex(s[i]).Some?
    ensures r.Some? ==> |r.value| == |s| && forall i :: 0 <= i < |s| ==> StdIndex(s[i]) == Some(r.value[i])
  {
    if forall i :: 0 <= i < |s| ==> StdIndex(s[i]).Some? then
      var q := seq(|s|, i requires 0 <= i < |s| => StdIndex(s[i]).value);
      assert forall i :: 0 <= i < |s| ==> StdIndex(s[i]) == Some(q[i]);
      Some(q)
    else
      None
  }

  /** Reading back the characters of a sextet string gives the sextets. */
  lemma IndicesChars(q: seq<Sextet>)
    ensures Indices(Chars(q)) == Some(q)
  {
    var s := Chars(q);
    var r := Indices(s);
    assert r.Some?;
    assert |r.value| == |q|;
    forall i | 0 <= i < |q|
      ensures r.value[i] == q[i]
    {
      assert StdIndex(s[i]) == Some(r.value[i]);
      assert StdIndex(s[i]) == Some(q[i]);
    }
    assert r.value == q;
  }

  /** The base64 characters of `b` before padding. */
  function EncodeUnpadded(b: seq<Byte>): (s: string)
    ensures |s| == 4 * (|b| / 3) + (if |b| % 3 == 0 then 0 else |b| % 3 + 1)
    ensures forall i :: 0 <= i < |s| ==> StdIndex(s[i]).Some?
  {
    Chars(ToSextets(b))
  }

  /** The `=` characters that fill the last group of four. */
  function Padding(n: nat): (p: string)
    ensures forall i :: 0 <= i < |p| ==> p[i] == '='
    ensures |p| == (3 - n % 3) % 3
  {
    if n % 3 == 1 then "==" else if n % 3 == 2 then "=" else ""
  }

  /** `btoa` of the binary string whose code units are `b`. */
  function Btoa(b: seq<Byte>): (s: string)
    ensures |s| % 4 == 0 && |s| == 4 * ((|b| + 2) / 3)
  {
    var k, r := |b| / 3, |b| % 3;
    assert |b| == 3 * k + r && (|b| + 2) / 3 == k + (if r == 0 then 0 else 1);
    EncodeUnpadded(b) + Padding(|b|)
  }

  /** ASCII whitespace of the WHATWG Infra standard: tab, line feed, form feed, carriage
      return and space. */
  predicate IsAsciiWhitespace(c: char)
  {
    var n := c as int;
    n == 0x09 || n == 0x0A || n == 0x0C || n == 0x0D || n == 0x20
  }

  /** The first step of the forgiving decode: every ASCII whitespace character is removed, and
      every other character is kept in order. */
  function RemoveAsciiWhitespace(s: string): (r: string)
    ensures |r| <= |s|
    ensures forall i :: 0 <= i < |r| ==> !IsAsciiWhitespace(r[i])
    ensures forall i :: 0 <= i < |s| && !IsAsciiWhitespace(s[i]) ==> s[i] in r
    ensures (forall i :: 0 <= i < |s| ==> !IsAsciiWhitespace(s[i])) ==> r == s
  {
    if s == [] then []
    else
      var rest := RemoveAsciiWhitespace(s[1..]);
      assert forall i :: 1 <= i < |s| ==> s[i] == s[1..][i - 1];
      (if IsAsciiWhitespace(s[0]) then [] else [s[0]]) + rest
  }

  /** No character of the alphabet is whitespace, so whitespace removal keeps an encoding. */
  lemma RemoveKeepsAlphabet(e: string)
    requires forall i :: 0 <= i < |e| ==> StdIndex(e[i]).Some?
    ensures RemoveAsciiWhitespace(e) == e
  {
    assert forall i :: 0 <= i < |e| ==> !IsAsciiWhitespace(e[i]);
  }

  /** The second step of the forgiving decode: one or two `=` at the end of a string whose
      length is a multiple of four are removed. */
  function StripPadding(s: string): (t: string)
    ensures t <= s && |s| - 2 <= |t|
    ensures forall i :: |t| <= i < |s| ==> s[i] == '='
  {
    if |s| % 4 == 0 && |s| >= 2 && s[|s| - 2] == '=' && s[|s| - 1] == '=' then s[..|s| - 2]
    else if |s| % 4 == 0 && |s| >= 1 && s[|s| - 1] == '=' then s[..|s| - 1]
    else s
  }

  /** The rest of the forgiving decode: a length of the form 4k+1 or a character outside the
      alphabet is a failure, anything else is unpacked. */
  function DecodeStripped(t: string): Option<seq<Byte>>
  {
    if |t| % 4 == 1 then None
    else
      match Indices(t)
      case None => None
      case Some(q) => Some(Unpack(q))
  }

  /** `atob`: the forgiving decode. It succeeds only when every character is whitespace, `=`
      or in the alphabet. */
  function Atob(s: string): (r: Option<seq<Byte>>)
    ensures r.Some? ==> forall i :: 0 <= i < |s| ==> IsAsciiWhitespace(s[i]) || s[i] == '=' || StdIndex(s[i]).Some?
  {
    var w := RemoveAsciiWhitespace(s);
    var t := StripPadding(w);
    var r := DecodeStripped(t);
    assert r.Some? ==> forall j :: 0 <= j < |w| ==> w[j] == '=' || StdIndex(w[j]).Some? by {
      if r.Some? {
        forall j | 0 <= j < |w|
          ensures w[j] == '=' || StdIndex(w[j]).Some?
        {
          if j < |t| {
            assert w[j] == t[j];
          }
        }
      }
    }
    r
  }

  /** Stripping removes exactly the padding that fills up a group of four of alphabet
      characters. */
  lemma StripIgnoresPadding(e: string, p: string)
    requires forall i :: 0 <= i < |e| ==> StdIndex(e[i]).Some?
    requires p == "" || p == "=" || p == "=="
    requires p != "" ==> (|e| + |p|) % 4 == 0
    ensures StripPadding(e + p) == e
  {
    var s := e + p;
    PadNotInAlphabet();
    if p == "=" {
      assert StdIndex(e[|e| - 1]).Some?;
      assert s[|s| - 2] == e[|e| - 1];
      assert s[..|s| - 1] == e;
    } else if p == "==" {
      assert s[..|s| - 2] == e;
    } else {
      assert s == e;
      if |e| > 0 {
        assert StdIndex(e[|e| - 1]).Some?;
      }
    }
  }

  /** The characters of a byte string's encoding decode back to it. */
  lemma DecodeChars(b: seq<Byte>)
    ensures DecodeStripped(EncodeUnpadded(b)) == Some(b)
  {
    IndicesChars(ToSextets(b));
    UnpackToSextets(b);
  }

  /** `atob` of alphabet characters followed by their padding decodes the characters. */
  lemma AtobPadded(e: string, p: string)
    requires forall i :: 0 <= i < |e| ==> StdIndex(e[i]).Some?
    requires p == "" || p == "=" || p == "=="
    requires p != "" ==> (|e| + |p|) % 4 == 0
    ensures Atob(e + p) == DecodeStripped(e)
  {
    assert forall i :: 0 <= i < |e + p| ==> !IsAsciiWhitespace((e + p)[i]);
    assert RemoveAsciiWhitespace(e + p) == e + p;
    StripIgnoresPadding(e, p);
  }

  /** Decoding the unpadded encoding gives the bytes back. */
  lemma DecodeUnpadded(b: seq<Byte>)
    ensures Atob(EncodeUnpadded(b)) == Some(b)
  {
    var e := EncodeUnpadded(b);
    AtobPadded(e, "");
    assert e + "" == e;
    DecodeChars(b);
  }

  /** `atob(btoa(x))` is `x` for every binary string. */
  lemma AtobBtoa(b: seq<Byte>)
    ensures Atob(Btoa(b)) == Some(b)
  {
    var e := EncodeUnpadded(b);
    var p := Padding(|b|);
    assert Btoa(b) == e + p;
    assert p == "" || p == "=" || p == "==";
    assert (|e| + |p|) % 4 == 0 by {
      assert |e| + |p| == |Btoa(b)|;
    }
    AtobPadded(e, p);
    DecodeChars(b);
  }

  /** A length of the form 4k+1, counted once whitespace is removed, makes `atob` fail. */
  lemma AtobRejectsLength(s: string)
    requires |RemoveAsciiWhitespace(s)| % 4 == 1
    ensures Atob(s).None?
  {
    var w := RemoveAsciiWhitespace(s);
    assert StripPadding(w) == w;
  }

  /** Whitespace removal works piece by piece. */
  lemma {:induction false} RemoveAppend(a: string, b: string)
    ensures RemoveAsciiWhitespace(a + b) == RemoveAsciiWhitespace(a) + RemoveAsciiWhitespace(b)
    decreases |a|
  {
    if a == [] {
      assert a + b == b;
    } else {
      assert (a + b)[1..] == a[1..] + b;
      RemoveAppend(a[1..], b);
    }
  }

  /** Whitespace anywhere in the text is skipped: inserting a whitespace character anywhere
      does not change what `atob` gives, so "QU JD" decodes like "QUJD". */
  lemma {:induction false} AtobSkipsWhitespace(a: string, c: char, b: string)
    requires IsAsciiWhitespace(c)
    ensures Atob(a + [c] + b) == Atob(a + b)
  {
    RemoveAppend(a + [c], b);
    RemoveAppend(a, [c]);
    RemoveAppend(a, b);
    assert RemoveAsciiWhitespace([c]) == [];
    assert RemoveAsciiWhitespace(a + [c] + b) == RemoveAsciiWhitespace(a + b);
  }

  /** The test vectors of section 10 of RFC 4648 for "f", "fo" and "foo". */
  lemma BtoaVectors()
    ensures Btoa([102]) == "Zg=="
    ensures Btoa([102, 111]) == "Zm8="
    ensures Btoa([102, 111, 111]) == "Zm9v"
  {
    assert ToSextets([102]) == [25, 32];
    assert ToSextets([102, 111]) == [25, 38, 60];
    assert ToSextets([102, 111, 111]) == [25, 38, 61, 47] + ToSextets([]);
    assert StdChar(25) == 'Z' && StdChar(32) == 'g' && StdChar(38) == 'm';
    assert StdChar(60) == '8' && StdChar(61) == '9' && StdChar(47) == 'v';
  }
}
