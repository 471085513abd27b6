/** The pure parts of libs/js/passkey-helper.js: the base64url encoding of WebAuthn buffers
    (`arrayBufferToBase64Url`), its inverse applied to the challenge in `passkeyAuth`, the
    serializable copy of an assertion (`assertionToObject`), `extractValue` and the early return
    of `passkeyAuth`. A DOM element's text is a parameter: `None` is an element that is absent. */
module Passkey {

  import opened Wrappers
  import opened Base64

  /** `s.replace(/x/g, y)` for a single character `x`. */
  function ReplaceAll(s: string, from: char, to: char): (r: string)
    ensures |r| == |s|
    ensures forall i :: 0 <= i < |s| ==> r[i] == if s[i] == from then to else s[i]
  {
    if s == [] then [] else [if s[0] == from then to else s[0]] + ReplaceAll(s[1..], from, to)
  }

  /** `s.replace(/c+$/, '')`: the longest run of `c` that ends the string is removed. */
  function StripTrailing(s: string, c: char): (r: string)
    ensures r <= s
    ensures forall i :: |r| <= i < |s| ==> s[i] == c
    ensures r == [] || r[|r| - 1] != c
  {
    if s != [] && s[|s| - 1] == c then StripTrailing(s[..|s| - 1], c) else s
  }

  /** A string that does not end in `c`, followed by a run of `c`, loses exactly that run. */
  lemma {:induction false} StripTrailingRun(x: string, p: string, c: char)
    requires x == [] || x[|x| - 1] != c
    requires forall i :: 0 <= i < |p| ==> p[i] == c
    ensures StripTrailing(x + p, c) == x
    decreases |p|
  {
    if p == [] {
      assert x + p == x;
    } else {
      var q := p[..|p| - 1];
      assert (x + p)[..|x + p| - 1] == x + q;
      StripTrailingRun(x, q, c);
    }
  }

  /** The two alphabet swaps of section 5 of RFC 4648, each way: `+` and `/` become `-` and
      `_`, and back; every other character is kept. */
  function ToUrlAlphabet(s: string): (r: string)
    ensures |r| == |s|
    ensures forall i :: 0 <= i < |s| ==> r[i] == if s[i] == '+' then '-' else if s[i] == '/' then '_' else s[i]
  {
    ReplaceAll(ReplaceAll(s, '+', '-'), '/', '_')
  }

  function FromUrlAlphabet(s: string): (r: string)
    ensures |r| == |s|
    ensures forall i :: 0 <= i < |s| ==> r[i] == if s[i] == '-' then '+' else if s[i] == '_' then '/' else s[i]
  {
    ReplaceAll(ReplaceAll(s, '-', '+'), '_', '/')
  }

  /** Characters of the standard alphabet map to the URL-safe one and back unchanged. */
  lemma UrlAlphabetRoundTrip(e: string)
    requires forall i :: 0 <= i < |e| ==> StdIndex(e[i]).Some?
    ensures FromUrlAlphabet(ToUrlAlphabet(e)) == e
  {
    var r := FromUrlAlphabet(ToUrlAlphabet(e));
    forall i | 0 <= i < |e|
      ensures r[i] == e[i]
    {
      assert StdIndex('-').None? && StdIndex('_').None?;
    }
  }

  /** ... and a string that holds neither `+` nor `/` survives the way back and forth. */
  lemma UrlAlphabetRoundTripBack(s: string)
    requires forall i :: 0 <= i < |s| ==> s[i] != '+' && s[i] != '/'
    ensures ToUrlAlphabet(FromUrlAlphabet(s)) == s
  {
    var r := ToUrlAlphabet(FromUrlAlphabet(s));
    assert forall i :: 0 <= i < |s| ==> r[i] == s[i];
  }

  /** `arrayBufferToBase64Url`: `btoa` of the bytes, `+` to `-`, `/` to `_`, trailing `=`
      removed. `btoa` always returns a string, so the `null` result is never produced. The
      result is the unpadded base64 of the bytes with the alphabet swapped and no other
      character changed; so it holds no `+`, `/` or `=` at all. */
  function ArrayBufferToBase64Url(buffer: seq<Byte>): (r: string)
    ensures r == ToUrlAlphabet(EncodeUnpadded(buffer))
    ensures forall i :: 0 <= i < |r| ==> r[i] != '+' && r[i] != '/' && r[i] != '='
  {
    var e := EncodeUnpadded(buffer);
    var p := Padding(|buffer|);
    var u := ToUrlAlphabet(e);
    assert ToUrlAlphabet(e + p) == u + p;
    assert StdIndex('=').None?;
    assert forall i :: 0 <= i < |u| ==> u[i] != '=';
    StripTrailingRun(u, p, '=');
    StripTrailing(ToUrlAlphabet(Btoa(buffer)), '=')
  }

  /** The decode of line 154: the alphabet swapped back, then `atob`. */
  function Base64UrlDecode(s: string): (r: Option<seq<Byte>>)
    ensures r.Some? ==>
              forall i :: 0 <= i < |s| ==> s[i] in "-_=" || IsAsciiWhitespace(s[i]) || StdIndex(s[i]).Some?
  {
    Atob(FromUrlAlphabet(s))
  }

  /** Like `atob`, the challenge decode skips whitespace anywhere in the text, also inside a
      trimmed value. */
  lemma {:induction false} Base64UrlDecodeSkipsWhitespace(a: string, c: char, b: string)
    requires IsAsciiWhitespace(c)
    ensures Base64UrlDecode(a + [c] + b) == Base64UrlDecode(a + b)
  {
    FromUrlAlphabetAppend(a + [c], b);
    FromUrlAlphabetAppend(a, [c]);
    FromUrlAlphabetAppend(a, b);
    assert FromUrlAlphabet([c]) == [c];
    AtobSkipsWhitespace(FromUrlAlphabet(a), c, FromUrlAlphabet(b));
  }

  /** The mapping back works piece by piece. */
  lemma FromUrlAlphabetAppend(x: string, y: string)
    ensures FromUrlAlphabet(x + y) == FromUrlAlphabet(x) + FromUrlAlphabet(y)
  {
    var l, r := FromUrlAlphabet(x + y), FromUrlAlphabet(x) + FromUrlAlphabet(y);
    assert forall i :: 0 <= i < |x + y| ==> l[i] == r[i];
  }

  /** Decoding an encoded buffer gives the buffer back, although the padding was dropped. */
  lemma Base64UrlRoundTrip(buffer: seq<Byte>)
    ensures Base64UrlDecode(ArrayBufferToBase64Url(buffer)) == Some(buffer)
  {
    UrlAlphabetRoundTrip(EncodeUnpadded(buffer));
    DecodeUnpadded(buffer);
  }

  /** A non-empty buffer encodes to a non-empty string. */
  lemma Base64UrlNonEmpty(buffer: seq<Byte>)
    requires buffer != []
    ensures ArrayBufferToBase64Url(buffer) != ""
  {
  }

  /** The characters `String.prototype.trim` removes: WhiteSpace and LineTerminator of the
      ECMAScript grammar. */
  predicate IsJsSpace(c: char)
  {
    var n := c as int;
    n == 0x09 || n == 0x0B || n == 0x0C || n == 0x20 || n == 0xA0 || n == 0xFEFF
    || n == 0x1680 || 0x2000 <= n <= 0x200A || n == 0x202F || n == 0x205F || n == 0x3000
    || n == 0x0A || n == 0x0D || n == 0x2028 || n == 0x2029
  }

  /** The string with its leading whitespace removed. */
  function TrimStart(s: string): (r: string)
    ensures |r| <= |s| && r == s[|s| - |r|..]
    ensures forall i :: 0 <= i < |s| - |r| ==> IsJsSpace(s[i])
    ensures r == [] || !IsJsSpace(r[0])
  {
    if s != [] && IsJsSpace(s[0]) then TrimStart(s[1..]) else s
  }

  /** The string with its trailing whitespace removed. */
  function TrimEnd(s: string): (r: string)
    ensures r <= s
    ensures forall i :: |r| <= i < |s| ==> IsJsSpace(s[i])
    ensures r == [] || !IsJsSpace(r[|r| - 1])
  {
    if s != [] && IsJsSpace(s[|s| - 1]) then TrimEnd(s[..|s| - 1]) else s
  }

  /** `s.trim()`: the text neither starts nor ends with whitespace. */
  function Trim(s: string): (r: string)
    ensures |r| <= |s|
    ensures r != [] ==> !IsJsSpace(r[0]) && !IsJsSpace(r[|r| - 1])
  {
    var t := TrimStart(s);
    var r := TrimEnd(t);
    assert r != [] ==> r[0] == t[0];
    r
  }

  /** Trimming removes whitespace only, and only at both ends: the trimmed text sits in `s`
      after `a` leading characters, and everything around it is whitespace. */
  lemma {:induction false} TrimRemovesSpaceOnly(s: string)
    ensures var r := Trim(s);
            var a := |s| - |TrimStart(s)|;
            && a + |r| <= |s| && s[a..a + |r|] == r
            && (forall i :: 0 <= i < a ==> IsJsSpace(s[i]))
            && (forall i :: a + |r| <= i < |s| ==> IsJsSpace(s[i]))
  {
    var t := TrimStart(s);
    var a := |s| - |t|;
    TrimEndInside(s, t, a);
    assert Trim(s) == TrimEnd(t);
  }

  /** What `TrimEnd` keeps of a suffix `t` of `s` that starts at `a`. */
  lemma {:induction false} TrimEndInside(s: string, t: string, a: nat)
    requires a <= |s| && t == s[a..]
    ensures var r := TrimEnd(t);
            && a + |r| <= |s| && s[a..a + |r|] == r
            && (forall i :: a + |r| <= i < |s| ==> IsJsSpace(s[i]))
  {
    var r := TrimEnd(t);
    assert s[a..a + |r|] == t[..|r|];
    forall i | a + |r| <= i < |s|
      ensures IsJsSpace(s[i])
    {
      assert s[i] == t[i - a];
    }
  }

  /** The trimmed text is empty exactly when the text is all whitespace. */
  lemma {:induction false} TrimEmptyIff(s: string)
    ensures Trim(s) == [] <==> forall i :: 0 <= i < |s| ==> IsJsSpace(s[i])
  {
    TrimRemovesSpaceOnly(s);
    var t := TrimStart(s);
    if Trim(s) == [] {
      assert t == [];
    }
  }

  /** Text that neither starts nor ends with whitespace is left as it is. */
  lemma TrimKeeps(s: string)
    requires s == [] || (!IsJsSpace(s[0]) && !IsJsSpace(s[|s| - 1]))
    ensures Trim(s) == s
  {
  }

  /** Trimming twice is trimming once. */
  lemma {:induction false} TrimIdempotent(s: string)
    ensures Trim(Trim(s)) == Trim(s)
  {
    TrimKeeps(Trim(s));
  }

  /** `extractValue`: the trimmed text of the element, or `null` when it is absent. */
  function ExtractValue(element: Option<string>): (r: Option<string>)
    ensures r.None? <==> element.None?
    ensures r.Some? ==> r.value == Trim(element.value)
    ensures r.Some? ==> r.value == [] || (!IsJsSpace(r.value[0]) && !IsJsSpace(r.value[|r.value| - 1]))
  {
    match element
    case None => None
    case Some(text) => Some(Trim(text))
  }

  /** What `!value` is false for: a string that is present and not empty. */
  predicate Truthy(v: Option<string>)
  {
    v.Some? && v.value != ""
  }

  /** How far `passkeyAuth` gets: it returns at once, the challenge decode throws, or the
      credential request is made with these options. */
  datatype AuthStart =
    | Skipped
    | ChallengeRejected
    | Request(challenge: seq<Byte>, rpId: string, userVerification: string)

  /** `passkeyAuth` up to the call of `navigator.credentials.get`, given the text of the
      challenge, user-verification and relying-party elements. */
  function PasskeyAuthStart(challengeElement: Option<string>, userVerificationElement: Option<string>,
                            rpIdElement: Option<string>): (r: AuthStart)
    ensures !r.Skipped? ==> challengeElement.Some? && userVerificationElement.Some? && rpIdElement.Some?
    ensures r.ChallengeRejected? ==> Base64UrlDecode(Trim(challengeElement.value)).None?
    ensures r.Request? ==>
              && Base64UrlDecode(Trim(challengeElement.value)) == Some(r.challenge)
              && r.rpId == Trim(rpIdElement.value) != ""
              && r.userVerification == Trim(userVerificationElement.value) != ""
  {
    var challengeValue := ExtractValue(challengeElement);
    var userVerificationValue := ExtractValue(userVerificationElement);
    var rpIdValue := ExtractValue(rpIdElement);
    if !Truthy(challengeValue) || !Truthy(userVerificationValue) || !Truthy(rpIdValue) then Skipped
    else
      match Base64UrlDecode(challengeValue.value)
      case None => ChallengeRejected
      case Some(challenge) => Request(challenge, rpIdValue.value, userVerificationValue.value)
  }

  /** An element that is there and holds more than whitespace. */
  predicate HasText(element: Option<string>)
  {
    element.Some? && exists i :: 0 <= i < |element.value| && !IsJsSpace(element.value[i])
  }

  lemma TruthyExtract(element: Option<string>)
    ensures Truthy(ExtractValue(element)) <==> HasText(element)
  {
    if element.Some? {
      TrimEmptyIff(element.value);
    }
  }

  /** No credential is requested unless all three elements are there and hold more than
      whitespace, and then the challenge decode is attempted. */
  lemma PasskeyAuthGuard(challengeElement: Option<string>, userVerificationElement: Option<string>,
                         rpIdElement: Option<string>)
    ensures PasskeyAuthStart(challengeElement, userVerificationElement, rpIdElement).Skipped? <==>
              !HasText(challengeElement) || !HasText(userVerificationElement) || !HasText(rpIdElement)
  {
    TruthyExtract(challengeElement);
    TruthyExtract(userVerificationElement);
    TruthyExtract(rpIdElement);
  }

  /** A challenge element holding, up to surrounding whitespace, the base64url encoding of a
      non-empty buffer yields a request for exactly that buffer, with the trimmed relying party
      and user-verification texts. */
  lemma ChallengeRoundTrip(challenge: seq<Byte>, challengeText: string,
                           userVerificationElement: Option<string>, rpIdElement: Option<string>)
    requires challenge != []
    requires Trim(challengeText) == ArrayBufferToBase64Url(challenge)
    requires HasText(userVerificationElement) && HasText(rpIdElement)
    ensures PasskeyAuthStart(Some(challengeText), userVerificationElement, rpIdElement)
            == Request(challenge, Trim(rpIdElement.value), Trim(userVerificationElement.value))
  {
    Base64UrlNonEmpty(challenge);
    Base64UrlRoundTrip(challenge);
    TruthyExtract(userVerificationElement);
    TruthyExtract(rpIdElement);
  }

  /** The buffers of an `AuthenticatorAssertionResponse`; `userHandle` may be null. */
  datatype AssertionResponse = AssertionResponse(
    clientDataJSON: seq<Byte>,
    authenticatorData: seq<Byte>,
    signature: seq<Byte>,
    userHandle: Option<seq<Byte>>)

  /** A `PublicKeyCredential` returned by `navigator.credentials.get`. */
  datatype Assertion = Assertion(id: string, rawId: seq<Byte>, credentialType: string, response: AssertionResponse)

  /** The serializable copies, with every buffer as base64url text. */
  datatype ResponseObject = ResponseObject(
    clientDataJSON: string,
    authenticatorData: string,
    signature: string,
    userHandle: Option<string>)

  datatype AssertionObject = AssertionObject(id: string, rawId: string, credentialType: string, response: ResponseObject)

  /** `assertionToObject`: `id` and `type` copied, each buffer encoded. An empty user handle
      is still an object, so only a missing one gives `null`. */
  function AssertionToObject(assertion: Assertion): (o: AssertionObject)
    ensures o.id == assertion.id && o.credentialType == assertion.credentialType
    ensures o.rawId == ArrayBufferToBase64Url(assertion.rawId)
    ensures o.response.clientDataJSON == ArrayBufferToBase64Url(assertion.response.clientDataJSON)
    ensures o.response.authenticatorData == ArrayBufferToBase64Url(assertion.response.authenticatorData)
    ensures o.response.signature == ArrayBufferToBase64Url(assertion.response.signature)
    ensures o.response.userHandle == if assertion.response.userHandle.Some?
                                     then Some(ArrayBufferToBase64Url(assertion.response.userHandle.value))
                                     else None
    ensures Base64UrlDecode(o.rawId) == Some(assertion.rawId)
    ensures Base64UrlDecode(o.response.clientDataJSON) == Some(assertion.response.clientDataJSON)
    ensures Base64UrlDecode(o.response.authenticatorData) == Some(assertion.response.authenticatorData)
    ensures Base64UrlDecode(o.response.signature) == Some(assertion.response.signature)
    ensures o.response.userHandle.None? <==> assertion.response.userHandle.None?
    ensures o.response.userHandle.Some? ==>
              Base64UrlDecode(o.response.userHandle.value) == Some(assertion.response.userHandle.value)
  {
    var r := assertion.response;
    Base64UrlRoundTrip(assertion.rawId);
    Base64UrlRoundTrip(r.clientDataJSON);
    Base64UrlRoundTrip(r.authenticatorData);
    Base64UrlRoundTrip(r.signature);
    Base64UrlRoundTrip(if r.userHandle.Some? then r.userHandle.value else []);
    AssertionObject(
      assertion.id,
      ArrayBufferToBase64Url(assertion.rawId),
      assertion.credentialType,
      ResponseObject(
        ArrayBufferToBase64Url(r.clientDataJSON),
        ArrayBufferToBase64Url(r.authenticatorData),
        ArrayBufferToBase64Url(r.signature),
        if r.userHandle.Some? then Some(ArrayBufferToBase64Url(r.userHandle.value)) else None))
  }

  /** Two assertions with the same serializable copy are the same assertion: no information
      is lost. */
  lemma AssertionToObjectInjective(a1: Assertion, a2: Assertion)
    requires AssertionToObject(a1) == AssertionToObject(a2)
    ensures a1 == a2
  {
    var o := AssertionToObject(a1);
    assert o.response.userHandle.Some? ==>
             Some(a1.response.userHandle.value) == Some(a2.response.userHandle.value);
  }
}
