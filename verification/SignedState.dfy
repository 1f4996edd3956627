/** The signed OIDC state parameter `flow:return_to:invite:mac`. */
module SignedState {
  import opened Basics
  import opened XmlModel

  /** A message authentication code, arbitrary here. */
  type Mac = (seq<Byte>, string) -> seq<Byte>

  datatype Fields = Fields(flow: string, returnTo: string, invite: Option<string>)

  // ------------------------------------------------------------------------ hex

  function Digit(n: nat): char
    requires n < 16
  {
    if n < 10 then '0' + n as char else 'a' + (n - 10) as char
  }

  function Hex(bytes: seq<Byte>): string {
    if bytes == [] then "" else [Digit(bytes[0] / 16), Digit(bytes[0] % 16)] + Hex(bytes[1..])
  }

  function Unhex(s: string): Option<seq<Byte>> {
    if s == "" then Some([])
    else if |s| == 1 then None
    else
      var hi, lo, rest := HexDigit(s[0] as int), HexDigit(s[1] as int), Unhex(s[2..]);
      if hi.Some? && lo.Some? && rest.Some?
      then Some([hi.value * 16 + lo.value] + rest.value)
      else None
  }

  lemma {:induction false} DigitInverse(n: nat)
    requires n < 16
    ensures HexDigit(Digit(n) as int) == Some(n) && Digit(n) != ':'
  {}

  lemma {:induction false} UnhexCons(b: Byte, s: string)
    requires Unhex(s).Some?
    ensures Unhex([Digit(b / 16), Digit(b % 16)] + s) == Some([b] + Unhex(s).value)
  {
    var t := [Digit(b / 16), Digit(b % 16)] + s;
    DigitInverse(b / 16);
    DigitInverse(b % 16);
    assert t[2..] == s;
  }

  lemma {:induction false} UnhexHex(bytes: seq<Byte>)
    ensures Unhex(Hex(bytes)) == Some(bytes) && ':' !in Hex(bytes)
  {
    if bytes != [] {
      UnhexHex(bytes[1..]);
      UnhexCons(bytes[0], Hex(bytes[1..]));
      DigitInverse(bytes[0] / 16);
      DigitInverse(bytes[0] % 16);
      assert bytes == [bytes[0]] + bytes[1..];
    }
  }

  // ------------------------------------------------------------- sign and verify

  function Text(invite: Option<string>): string {
    if invite.Some? then invite.value else ""
  }

  function Payload(flow: string, returnTo: string, invite: string): string {
    flow + ":" + (returnTo + ":" + invite)
  }

  function SignState(f: Fields, key: seq<Byte>, mac: Mac): string {
    var payload := Payload(f.flow, f.returnTo, Text(f.invite));
    payload + ":" + Hex(mac(key, payload))
  }

  function FirstColon(s: string): (r: int)
    ensures -1 <= r < |s|
    ensures r >= 0 ==> s[r] == ':'
    ensures forall i :: 0 <= i < (if r < 0 then |s| else r) ==> s[i] != ':'
  {
    if s == "" then -1
    else if s[0] == ':' then 0
    else
      var r := FirstColon(s[1..]);
      assert forall i :: 0 < i < |s| ==> s[i] == s[1..][i - 1];
      if r < 0 then -1 else r + 1
  }

  /** `flow:rest`, and `rest` split at its last colon if it has one. */
  function ParsePayload(payload: string): Option<Fields> {
    var p := FirstColon(payload);
    if p < 0 then None
    else
      var flow, rest := payload[..p], payload[p + 1..];
      var q := LastColon(rest);
      if q < 0 then Some(Fields(flow, rest, None))
      else
        var invite := rest[q + 1..];
        Some(Fields(flow, rest[..q], if invite == "" then None else Some(invite)))
  }

  function VerifyState(state: string, key: seq<Byte>, mac: Mac): Option<Fields> {
    var p := LastColon(state);
    if p < 0 then None
    else
      var payload, sig := state[..p], Unhex(state[p + 1..]);
      if sig.None? || sig.value != mac(key, payload) then None else ParsePayload(payload)
  }

  // -------------------------------------------------------------------- theorems

  lemma {:induction false} LastColonIs(s: string, p: nat)
    requires p < |s| && s[p] == ':' && forall i :: p < i < |s| ==> s[i] != ':'
    ensures LastColon(s) == p
  {}

  lemma {:induction false} LastColonAtLeast(s: string, i: nat)
    requires i < |s| && s[i] == ':'
    ensures LastColon(s) >= i
  {}

  lemma {:induction false} ColonSplit(a: string, b: string)
    ensures (a + ":" + b)[..|a|] == a && (a + ":" + b)[|a| + 1..] == b
  {}

  lemma {:induction false} LastColonAt(a: string, b: string)
    requires ':' !in b
    ensures LastColon(a + ":" + b) == |a|
    ensures (a + ":" + b)[..|a|] == a && (a + ":" + b)[|a| + 1..] == b
  {
    var s := a + ":" + b;
    ColonSplit(a, b);
    forall i | |a| < i < |s| ensures s[i] != ':' {
      assert s[i] == b[i - |a| - 1];
    }
    LastColonIs(s, |a|);
  }

  lemma {:induction false} FirstColonAt(a: string, b: string)
    requires ':' !in a
    ensures FirstColon(a + ":" + b) == |a|
    ensures (a + ":" + b)[..|a|] == a && (a + ":" + b)[|a| + 1..] == b
  {
    var s := a + ":" + b;
    var p := FirstColon(s);
    assert s[|a|] == ':';
    assert forall i :: 0 <= i < |a| ==> s[i] == a[i] && s[i] in a;
    assert p == |a|;
  }

  lemma {:induction false} HexIs(bytes: seq<Byte>)
    ensures |Hex(bytes)| == 2 * |bytes|
    ensures forall i :: 0 <= i < |bytes| ==>
              Hex(bytes)[2 * i] == LOWER[bytes[i] / 16] && Hex(bytes)[2 * i + 1] == LOWER[bytes[i] % 16]
  {
    if bytes != [] {
      HexIs(bytes[1..]);
      DigitIs(bytes[0] / 16);
      DigitIs(bytes[0] % 16);
    }
  }

  lemma {:induction false} DigitIs(n: nat)
    requires n < 16
    ensures Digit(n) == LOWER[n]
  {
    HexDigitIs(LOWER[n] as int);
    assert Spells(LOWER[n] as int, n);
  }

  /** The state as written: flow, return address, invite and the code of these three in
      lower-case hexadecimal, separated by colons. */
  lemma {:induction false} StateFormat(f: Fields, key: seq<Byte>, mac: Mac) returns (payload: string, hex: string)
    ensures SignState(f, key, mac) == payload + ":" + hex
    ensures payload == f.flow + ":" + f.returnTo + ":" + (if f.invite.Some? then f.invite.value else "")
    ensures var code := mac(key, payload);
            |hex| == 2 * |code| && forall i :: 0 <= i < |code| ==>
              hex[2 * i] == LOWER[code[i] / 16] && hex[2 * i + 1] == LOWER[code[i] % 16]
  {
    payload := Payload(f.flow, f.returnTo, Text(f.invite));
    hex := Hex(mac(key, payload));
    HexIs(mac(key, payload));
    var inv := Text(f.invite);
    assert f.flow + ":" + (f.returnTo + ":" + inv) == f.flow + ":" + f.returnTo + ":" + inv;
  }

  /** A state verifies exactly when what is behind its last colon is the code, in hexadecimal, of
      what is before, and that has a colon. */
  lemma {:induction false} VerifiesExactly(state: string, key: seq<Byte>, mac: Mac)
    ensures VerifyState(state, key, mac).Some? <==>
              exists payload, sig :: state == payload + ":" + sig && ':' !in sig && ':' in payload
                                     && Unhex(sig) == Some(mac(key, payload))
  {
    var p := LastColon(state);
    if p >= 0 {
      var payload, sig := state[..p], state[p + 1..];
      assert state == payload + ":" + sig;
      if VerifyState(state, key, mac).Some? {
        assert ':' in payload by { assert payload[FirstColon(payload)] == ':'; }
        assert ':' !in sig;
      }
    }
    forall payload, sig | state == payload + ":" + sig && ':' !in sig && ':' in payload
                          && Unhex(sig) == Some(mac(key, payload))
      ensures VerifyState(state, key, mac).Some?
    {
      LastColonAt(payload, sig);
      ColonAppears(payload);
    }
  }

  lemma {:induction false} ColonAppears(s: string)
    requires ':' in s
    ensures FirstColon(s) >= 0
  {}

  /** What a round trip is to give back: an empty invite counts as none. */
  function Expected(f: Fields): Fields {
    f.(invite := if Text(f.invite) == "" then None else f.invite)
  }

  /** A colon in the flow id cuts it short. */
  lemma {:induction false} ColonInFlow(flow: string, rest: string)
    requires ':' in flow
    ensures 0 <= FirstColon(flow + ":" + rest) < |flow|
  {
    var s := flow + ":" + rest;
    var k :| 0 <= k < |flow| && flow[k] == ':';
    assert s[k] == ':';
  }

  /** A colon in the invite moves part of it to the return address. */
  lemma {:induction false} ColonInInvite(returnTo: string, invite: string)
    requires ':' in invite
    ensures LastColon(returnTo + ":" + invite) > |returnTo|
  {
    var k :| 0 <= k < |invite| && invite[k] == ':';
    LastColonAtLeast(returnTo + ":" + invite, |returnTo| + 1 + k);
  }

  lemma {:induction false} FieldsExact(f: Fields)
    ensures var r := ParsePayload(Payload(f.flow, f.returnTo, Text(f.invite)));
            r.Some? && (r.value == Expected(f) <==> ':' !in f.flow && ':' !in Text(f.invite))
  {
    var inv := Text(f.invite);
    var rest := f.returnTo + ":" + inv;
    if ':' in f.flow {
      ColonInFlow(f.flow, rest);
    } else {
      FirstColonAt(f.flow, rest);
      if ':' in inv {
        ColonInInvite(f.returnTo, inv);
      } else {
        LastColonAt(f.returnTo, inv);
      }
    }
  }

  /** A signed state always verifies; it gives the fields back, for every return address,
      exactly when neither the flow id nor the invite contains a colon. */
  lemma {:induction false} RoundTripExact(f: Fields, key: seq<Byte>, mac: Mac)
    ensures var r := VerifyState(SignState(f, key, mac), key, mac);
            r.Some? && (r == Some(Expected(f)) <==> ':' !in f.flow && ':' !in Text(f.invite))
  {
    var payload := Payload(f.flow, f.returnTo, Text(f.invite));
    UnhexHex(mac(key, payload));
    LastColonAt(payload, Hex(mac(key, payload)));
    FieldsExact(f);
  }

  /** The parts of a parsed payload make it up again. */
  lemma {:induction false} ParsedIsPayload(payload: string)
    requires ParsePayload(payload).Some?
    ensures var f := ParsePayload(payload).value;
            payload == Payload(f.flow, f.returnTo, Text(f.invite))
            || (payload == f.flow + ":" + f.returnTo && f.invite == None)
  {
    var q := FirstColon(payload);
    var flow, rest := payload[..q], payload[q + 1..];
    CutAt(payload, q);
    if LastColon(rest) >= 0 { PayloadOf(flow, rest, LastColon(rest)); }
  }

  lemma {:induction false} PayloadOf(flow: string, rest: string, l: nat)
    requires l < |rest| && rest[l] == ':'
    ensures Payload(flow, rest[..l], rest[l + 1..]) == flow + ":" + rest
  {
    CutAt(rest, l);
  }

  lemma {:induction false} CutAt(s: string, i: nat)
    requires i < |s| && s[i] == ':'
    ensures s == s[..i] + ":" + s[i + 1..]
  {}

  /** Neither the flow id nor the invite of a parsed payload has a colon. */
  lemma {:induction false} ParsedHasNoColons(payload: string)
    requires ParsePayload(payload).Some?
    ensures var f := ParsePayload(payload).value; ':' !in f.flow && ':' !in Text(f.invite)
  {
    var q := FirstColon(payload);
    NoColonBefore(payload, q);
    var rest := payload[q + 1..];
    if LastColon(rest) >= 0 { NoColonBehind(rest, LastColon(rest)); }
  }

  lemma {:induction false} NoColonBefore(s: string, q: nat)
    requires q == FirstColon(s)
    ensures ':' !in s[..q]
  {}

  lemma {:induction false} NoColonBehind(s: string, l: nat)
    requires l == LastColon(s)
    ensures ':' !in s[l + 1..]
  {}

  /** Whatever verifies carries the code of exactly the fields it yields. */
  lemma {:induction false} VerifiedIsSigned(state: string, key: seq<Byte>, mac: Mac) returns (payload: string, sig: string)
    requires VerifyState(state, key, mac).Some?
    ensures state == payload + ":" + sig && Unhex(sig) == Some(mac(key, payload))
    ensures var f := VerifyState(state, key, mac).value;
            payload == Payload(f.flow, f.returnTo, Text(f.invite))
            || (payload == f.flow + ":" + f.returnTo && f.invite == None)
  {
    var p := LastColon(state);
    payload, sig := state[..p], state[p + 1..];
    assert state == payload + ":" + sig;
    ParsedIsPayload(payload);
  }
}
