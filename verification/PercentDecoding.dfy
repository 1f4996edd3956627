/** The path guard: percent-decoding repeated to a fixpoint. Strings are their UTF-8 bytes. */
module PercentDecoding {
  import opened Basics

  const PERCENT: Byte := 0x25
  const DOT: Byte := 0x2E

  predicate IsEscape(x: seq<Byte>) {
    |x| >= 3 && x[0] == PERCENT && HexDigit(x[1]).Some? && HexDigit(x[2]).Some?
  }

  function Value(x: seq<Byte>): (b: Byte)
    requires IsEscape(x)
  {
    HexDigit(x[1]).value * 16 + HexDigit(x[2]).value
  }

  /** A byte pushed as a `char`: from 0x80 on it takes two bytes of UTF-8. */
  function Encoded(b: Byte): (e: seq<Byte>)
    ensures |e| == if b < 0x80 then 1 else 2
  {
    if b < 0x80 then [b] else [0xC0 + b / 64, 0x80 + b % 64]
  }

  /** One left-to-right pass. */
  function Pass(x: seq<Byte>): seq<Byte> {
    if x == [] then []
    else if IsEscape(x) then Encoded(Value(x)) + Pass(x[3..])
    else Encoded(x[0]) + Pass(x[1..])
  }

  // -------------------------------------------------------------- what a pass does

  /** The UTF-8 of the character numbered `b`. */
  function Utf8(b: Byte): seq<Byte> {
    if b < 0x80 then [b] else [0xC0 + b / 0x40, 0x80 + b % 0x40]
  }

  /** `x` begins with `%` and the two hexadecimal digits of `b`, in either spelling. */
  ghost predicate BeginsWithEscape(x: seq<Byte>, b: Byte) {
    |x| >= 3 && x[0] == '%' as int && Spells(x[1], b / 16) && Spells(x[2], b % 16)
  }

  /** `r` is `x` with every escape replaced by its character, from left to right, and every
      other byte taken for a character. */
  ghost predicate Decodes(x: seq<Byte>, r: seq<Byte>)
    decreases |x|
  {
    if x == [] then r == []
    else if b: Byte :| BeginsWithEscape(x, b) then Utf8(b) <= r && Decodes(x[3..], r[|Utf8(b)|..])
    else Utf8(x[0]) <= r && Decodes(x[1..], r[|Utf8(x[0])|..])
  }

  lemma {:induction false} EscapeIs(x: seq<Byte>)
    ensures IsEscape(x) <==> exists b: Byte :: BeginsWithEscape(x, b)
    ensures forall b: Byte :: BeginsWithEscape(x, b) ==> Value(x) == b
  {
    if |x| >= 3 {
      HexDigitIs(x[1]);
      HexDigitIs(x[2]);
      if IsEscape(x) {
        var b := Value(x);
        assert Spells(x[1], HexDigit(x[1]).value) && Spells(x[2], HexDigit(x[2]).value);
        assert b / 16 == HexDigit(x[1]).value && b % 16 == HexDigit(x[2]).value;
        assert BeginsWithEscape(x, b);
      }
    }
  }

  /** A pass does exactly that. */
  lemma {:induction false} PassIs(x: seq<Byte>, r: seq<Byte>)
    ensures Decodes(x, r) <==> r == Pass(x)
    decreases |x|
  {
    if x != [] {
      EscapeIs(x);
      var e := if IsEscape(x) then Utf8(Value(x)) else Utf8(x[0]);
      var rest := if IsEscape(x) then x[3..] else x[1..];
      assert Pass(x) == e + Pass(rest);
      if e <= r {
        PassIs(rest, r[|e|..]);
        assert r == e + r[|e|..];
      }
      assert (e + Pass(rest))[|e|..] == Pass(rest);
      assert Decodes(x, r) <==> e <= r && Decodes(rest, r[|e|..]);
    }
  }

  lemma {:induction false} PassAt(result: seq<Byte>, input: seq<Byte>, i: nat, e: seq<Byte>, width: nat)
    requires i < |input|
    requires if IsEscape(input[i..]) then width == 3 && e == Encoded(Value(input[i..]))
             else width == 1 && e == Encoded(input[i])
    ensures i + width <= |input|
    ensures result + Pass(input[i..]) == result + e + Pass(input[i + width..])
  {
    assert input[i..][width..] == input[i + width..];
    Assoc(result, e, Pass(input[i + width..]));
  }

  method DecodePass(input: seq<Byte>) returns (result: seq<Byte>)
    ensures result == Pass(input)
    ensures Decodes(input, result)
  {
    PassIs(input, Pass(input));
    result := [];
    var i := 0;
    while i < |input|
      invariant 0 <= i <= |input|
      invariant result + Pass(input[i..]) == Pass(input)
    {
      var e, width := Encoded(input[i]), 1;
      if input[i] == PERCENT && i + 2 < |input| {
        var hi, lo := HexDigit(input[i + 1]), HexDigit(input[i + 2]);
        if hi.Some? && lo.Some? {
          e, width := Encoded(hi.value * 16 + lo.value), 3;
        }
      }
      PassAt(result, input, i, e, width);
      result := result + e;
      i := i + width;
    }
  }

  /** The recursion of `urlencoding_decode`, at most `n` calls deep. */
  function DecodeWithin(x: seq<Byte>, n: nat): Option<seq<Byte>>
    decreases n
  {
    if n == 0 then None
    else
      var y := Pass(x);
      if PERCENT in y && y != x then DecodeWithin(y, n - 1) else Some(y)
  }

  ghost predicate Terminates(x: seq<Byte>) {
    exists n: nat :: DecodeWithin(x, n).Some?
  }

  // ------------------------------------------------------------------- skeletons

  /** `s` with one more byte in front, where bytes from 0x80 on merge into one mark. */
  function Add(b: Byte, s: seq<Byte>): seq<Byte> {
    if b < 0x80 then [b] + s
    else if s != [] && s[0] >= 0x80 then s
    else [0x80] + s
  }

  /** Every run of non-ASCII bytes replaced by one mark. */
  function Skeleton(x: seq<Byte>): seq<Byte> {
    if x == [] then [] else Add(x[0], Skeleton(x[1..]))
  }

  /** A pass that pushes bytes instead of characters. */
  function PlainPass(x: seq<Byte>): seq<Byte> {
    if x == [] then []
    else if IsEscape(x) then [Value(x)] + PlainPass(x[3..])
    else [x[0]] + PlainPass(x[1..])
  }

  function SkeletonPass(s: seq<Byte>): seq<Byte> {
    Skeleton(PlainPass(s))
  }

  lemma {:induction false} SkeletonTwice(x: seq<Byte>)
    ensures Skeleton(Skeleton(x)) == Skeleton(x)
    ensures |Skeleton(x)| <= |x|
    ensures forall i :: 0 <= i < |Skeleton(x)| ==> Skeleton(x)[i] <= 0x80
  {
    if x != [] {
      SkeletonTwice(x[1..]);
      var s := Skeleton(x[1..]);
      assert ([x[0]] + s)[1..] == s && ([0x80 as Byte] + s)[1..] == s;
    }
  }

  lemma {:induction false} SkeletonCons(b: Byte, x: seq<Byte>)
    ensures Skeleton([b] + x) == Add(b, Skeleton(x))
  {
    assert ([b] + x)[1..] == x;
  }

  /** A pushed character leaves the mark its byte would leave. */
  lemma {:induction false} SkeletonEncoded(b: Byte, x: seq<Byte>)
    ensures Skeleton(Encoded(b) + x) == Add(b, Skeleton(x))
  {
    var e := Encoded(b);
    if b < 0x80 {
      SkeletonCons(b, x);
    } else {
      assert e + x == [e[0]] + ([e[1]] + x);
      SkeletonCons(e[1], x);
      SkeletonCons(e[0], [e[1]] + x);
    }
  }

  /** A skeleton shows an escape exactly where the string has one. */
  lemma {:induction false} EscapeShows(x: seq<Byte>)
    requires x != []
    ensures IsEscape(Skeleton(x)) <==> IsEscape(x)
    ensures IsEscape(x) ==> Skeleton(x)[..3] == x[..3] && Skeleton(x)[3..] == Skeleton(x[3..])
  {
    if |x| >= 3 {
      assert x[1..][1..] == x[2..] && x[2..][1..] == x[3..];
      assert Skeleton(x[1..]) == Add(x[1], Skeleton(x[2..]));
      assert Skeleton(x[2..]) == Add(x[2], Skeleton(x[3..]));
    } else {
      SkeletonTwice(x);
    }
  }

  /** Passing and taking the skeleton commute. */
  lemma {:induction false} PassOnSkeleton(x: seq<Byte>)
    ensures Skeleton(Pass(x)) == SkeletonPass(Skeleton(x))
    decreases |x|
  {
    if x != [] {
      EscapeShows(x);
      var s := Skeleton(x);
      if IsEscape(x) {
        PassOnSkeleton(x[3..]);
        SkeletonEncoded(Value(x), Pass(x[3..]));
        assert Value(s) == Value(x) by { assert s[1] == s[..3][1] && s[2] == s[..3][2]; }
        SkeletonCons(Value(x), PlainPass(s[3..]));
      } else {
        PassOnSkeleton(x[1..]);
        SkeletonEncoded(x[0], Pass(x[1..]));
        var t := Skeleton(x[1..]);
        if x[0] >= 0x80 && t != [] && t[0] >= 0x80 {
          SkeletonCons(t[0], PlainPass(t[1..]));
        } else {
          assert s[1..] == t;
          SkeletonCons(s[0], PlainPass(t));
        }
      }
    }
  }

  lemma {:induction false} PlainPassShrinks(x: seq<Byte>)
    ensures |PlainPass(x)| <= |x|
    ensures |PlainPass(x)| == |x| ==> PlainPass(x) == x
    decreases |x|
  {
    if x != [] {
      if IsEscape(x) { PlainPassShrinks(x[3..]); } else { PlainPassShrinks(x[1..]); }
    }
  }

  /** Each changing pass shortens the skeleton: the termination measure. */
  lemma {:induction false} SkeletonPassShrinks(s: seq<Byte>)
    requires Skeleton(s) == s
    ensures SkeletonPass(s) == s || |SkeletonPass(s)| < |s|
    ensures Skeleton(SkeletonPass(s)) == SkeletonPass(s)
  {
    PlainPassShrinks(s);
    SkeletonTwice(PlainPass(s));
  }

  /** The skeleton the decoding settles on. */
  function Core(s: seq<Byte>): (c: seq<Byte>)
    requires Skeleton(s) == s
    ensures Skeleton(c) == c && SkeletonPass(c) == c
    decreases |s|
  {
    SkeletonPassShrinks(s);
    if SkeletonPass(s) == s then s else Core(SkeletonPass(s))
  }

  // -------------------------------------------------------------------- contents

  predicate Ascii(x: seq<Byte>) {
    forall i :: 0 <= i < |x| ==> x[i] < 0x80
  }

  lemma {:induction false} AsciiCons(b: Byte, x: seq<Byte>)
    ensures Ascii([b] + x) <==> b < 0x80 && Ascii(x)
    ensures PERCENT in [b] + x <==> b == PERCENT || PERCENT in x
  {
    var y := [b] + x;
    if Ascii(y) {
      assert y[0] == b;
      forall i | 0 <= i < |x| ensures x[i] < 0x80 { assert y[i + 1] == x[i]; }
    }
  }

  lemma {:induction false} SkeletonShows(x: seq<Byte>)
    ensures PERCENT in Skeleton(x) <==> PERCENT in x
    ensures Ascii(Skeleton(x)) <==> Ascii(x)
    ensures Ascii(x) ==> Skeleton(x) == x
  {
    if x != [] {
      SkeletonShows(x[1..]);
      var s := Skeleton(x[1..]);
      assert x == [x[0]] + x[1..];
      AsciiCons(x[0], x[1..]);
      AsciiCons(x[0], s);
      AsciiCons(0x80, s);
      if x[0] >= 0x80 && s != [] && s[0] >= 0x80 { assert !Ascii(s); }
    }
  }

  /** Percent signs only ever come from percent signs. */
  lemma {:induction false} PercentFromPercent(x: seq<Byte>)
    ensures PERCENT in PlainPass(x) ==> PERCENT in x
    ensures PERCENT in Pass(x) ==> PERCENT in x
    decreases |x|
  {
    if x != [] && !IsEscape(x) { PercentFromPercent(x[1..]); }
  }

  lemma {:induction false} CorePercent(s: seq<Byte>)
    requires Skeleton(s) == s && PERCENT in Core(s)
    ensures PERCENT in s
    decreases |s|
  {
    SkeletonPassShrinks(s);
    if SkeletonPass(s) != s {
      CorePercent(SkeletonPass(s));
      SkeletonShows(PlainPass(s));
      PercentFromPercent(s);
    }
  }

  function HighBytes(x: seq<Byte>): nat {
    if x == [] then 0 else (if x[0] >= 0x80 then 1 else 0) + HighBytes(x[1..])
  }

  lemma {:induction false} HighBytesConcat(a: seq<Byte>, b: seq<Byte>)
    ensures HighBytes(a + b) == HighBytes(a) + HighBytes(b)
  {
    if a == [] {
      assert a + b == b;
    } else {
      assert (a + b)[1..] == a[1..] + b;
      HighBytesConcat(a[1..], b);
    }
  }

  /** Every non-ASCII byte becomes two. */
  lemma {:induction false} HighBytesDouble(x: seq<Byte>)
    ensures HighBytes(Pass(x)) >= 2 * HighBytes(x)
    decreases |x|
  {
    if x != [] {
      if IsEscape(x) {
        assert x[1..][1..] == x[2..] && x[2..][1..] == x[3..];
        assert HighBytes(x) == HighBytes(x[1..]) == HighBytes(x[2..]) == HighBytes(x[3..]);
        HighBytesDouble(x[3..]);
        HighBytesConcat(Encoded(Value(x)), Pass(x[3..]));
      } else {
        HighBytesDouble(x[1..]);
        HighBytesConcat(Encoded(x[0]), Pass(x[1..]));
        assert Encoded(x[0])[1..] == if x[0] < 0x80 then [] else [Encoded(x[0])[1]];
      }
    }
  }

  lemma {:induction false} AsciiHasNoHighBytes(x: seq<Byte>)
    ensures Ascii(x) <==> HighBytes(x) == 0
  {
    if x != [] {
      AsciiHasNoHighBytes(x[1..]);
      assert x == [x[0]] + x[1..];
      AsciiCons(x[0], x[1..]);
    }
  }

  // ---------------------------------------------------------------- termination

  /** What can be computed beforehand: decode with every non-ASCII run as one opaque mark;
      what remains has no percent sign, or no mark. */
  ghost predicate Settles(x: seq<Byte>) {
    SkeletonTwice(x);
    var c := Core(Skeleton(x));
    PERCENT !in c || Ascii(c)
  }

  lemma {:induction false} CoreOfPass(x: seq<Byte>)
    ensures Skeleton(Skeleton(x)) == Skeleton(x) && Skeleton(Skeleton(Pass(x))) == Skeleton(Pass(x))
    ensures Core(Skeleton(Pass(x))) == Core(Skeleton(x))
    ensures Settles(Pass(x)) <==> Settles(x)
  {
    SkeletonTwice(x);
    SkeletonTwice(Pass(x));
    PassOnSkeleton(x);
  }

  /** A pass that goes on to another one shortens the skeleton. */
  lemma {:induction false} PassProgress(x: seq<Byte>)
    requires Settles(x) && PERCENT in Pass(x) && Pass(x) != x
    ensures |Skeleton(Pass(x))| < |Skeleton(x)|
  {
    var y := Pass(x);
    SkeletonTwice(x);
    PassOnSkeleton(x);
    SkeletonPassShrinks(Skeleton(x));
    if Skeleton(y) == Skeleton(x) {
      SkeletonShows(x);
      SkeletonShows(y);
    }
  }

  lemma {:induction false} SettlesTerminates(x: seq<Byte>) returns (n: nat)
    requires Settles(x)
    ensures DecodeWithin(x, n).Some?
    decreases |Skeleton(x)|
  {
    var y := Pass(x);
    if PERCENT in y && y != x {
      PassProgress(x);
      CoreOfPass(x);
      n := SettlesTerminates(y);
      n := n + 1;
    } else {
      n := 1;
    }
  }

  lemma {:induction false} UnsettledDiverges(x: seq<Byte>, n: nat)
    requires !Settles(x)
    ensures DecodeWithin(x, n).None?
    decreases n
  {
    if n > 0 {
      var y := Pass(x);
      CoreOfPass(x);
      UnsettledDiverges(y, n - 1);
      assert PERCENT in y by {
        CorePercent(Skeleton(y));
        SkeletonShows(y);
      }
      UnsettledChanges(x);
    }
  }

  /** An unsettled string never stands still. */
  lemma {:induction false} UnsettledChanges(x: seq<Byte>)
    requires !Settles(x)
    ensures Pass(x) != x
  {
    if Pass(x) == x {
      HighBytesDouble(x);
      AsciiHasNoHighBytes(x);
      SkeletonShows(x);
      PassOnSkeleton(x);
    }
  }

  /** The recursion ends exactly on the strings that settle. */
  lemma {:induction false} TerminatesExactly(x: seq<Byte>)
    ensures Terminates(x) <==> Settles(x)
  {
    if Settles(x) {
      var n := SettlesTerminates(x);
    } else {
      forall n: nat ensures DecodeWithin(x, n).None? { UnsettledDiverges(x, n); }
    }
  }

  lemma {:induction false} LonePercent()
    ensures Skeleton([PERCENT]) == [PERCENT] && PlainPass([PERCENT]) == [PERCENT]
  {
    var p: seq<Byte> := [PERCENT];
    assert p[1..] == [];
  }

  lemma {:induction false} MarkedPercent()
    ensures Skeleton([0x80, PERCENT]) == [0x80, PERCENT] && PlainPass([0x80, PERCENT]) == [0x80, PERCENT]
  {
    var c: seq<Byte> := [0x80, PERCENT];
    LonePercent();
    assert c[1..] == [PERCENT];
  }

  /** `%80%`: the decoded byte widens at every call while the percent sign stays. */
  lemma {:induction false} DivergingExample()
    ensures !Terminates([PERCENT, 0x38, 0x30, PERCENT])
  {
    var x: seq<Byte> := [PERCENT, 0x38, 0x30, PERCENT];
    assert PlainPass(x) == [0x80, PERCENT] by {
      assert IsEscape(x) && Value(x) == 0x80;
      assert x[3..] == [PERCENT];
      LonePercent();
    }
    MarkedPercent();
    SkeletonShows(x);
    assert Core(x) == Core([0x80, PERCENT]) == [0x80, PERCENT];
    assert !Settles(x) by { assert [0x80, PERCENT][0] == 0x80; }
    TerminatesExactly(x);
  }

  // -------------------------------------------------------------------- the guard

  predicate HasDotDot(x: seq<Byte>) {
    |x| >= 2 && ((x[0] == DOT && x[1] == DOT) || HasDotDot(x[1..]))
  }

  /** `k` decodings. */
  function Iterated(x: seq<Byte>, k: nat): seq<Byte>
    decreases k
  {
    if k == 0 then x else Iterated(Pass(x), k - 1)
  }

  /** The `k`th decoding is the first that has no percent sign or changes nothing. */
  ghost predicate StopsAt(x: seq<Byte>, k: nat) {
    && k >= 1 && (('%' as int) !in Iterated(x, k) || Iterated(x, k) == Iterated(x, k - 1))
    && forall j :: 1 <= j < k ==> '%' as int in Iterated(x, j) && Iterated(x, j) != Iterated(x, j - 1)
  }

  lemma {:induction false} StopsNext(x: seq<Byte>, k: nat)
    requires PERCENT in Pass(x) && Pass(x) != x && StopsAt(Pass(x), k)
    ensures StopsAt(x, k + 1) && Iterated(x, k + 1) == Iterated(Pass(x), k)
  {
    forall j | 1 <= j < k + 1 ensures PERCENT in Iterated(x, j) && Iterated(x, j) != Iterated(x, j - 1) {
      assert Iterated(x, j) == Iterated(Pass(x), j - 1);
      if j > 1 { assert Iterated(x, j - 1) == Iterated(Pass(x), j - 2); }
    }
  }

  lemma {:induction false} StopsAtOnce(x: seq<Byte>)
    requires PERCENT !in Pass(x) || Pass(x) == x
    ensures StopsAt(x, 1) && Iterated(x, 1) == Pass(x)
  {
    assert Iterated(x, 1) == Iterated(Pass(x), 0);
  }

  /** `urlencoding_decode` on its domain. */
  method UrlencodingDecode(input: seq<Byte>) returns (result: seq<Byte>)
    requires Settles(input)
    ensures exists n: nat :: DecodeWithin(input, n) == Some(result)
    ensures exists k: nat :: StopsAt(input, k) && result == Iterated(input, k)
    decreases |Skeleton(input)|
  {
    result := DecodePass(input);
    if PERCENT in result && result != input {
      PassProgress(input);
      CoreOfPass(input);
      var second := UrlencodingDecode(result);
      ghost var n: nat :| DecodeWithin(result, n) == Some(second);
      assert DecodeWithin(input, n + 1) == Some(second);
      ghost var k: nat :| StopsAt(result, k) && second == Iterated(result, k);
      StopsNext(input, k);
      if second != result {
        return second;
      }
    } else {
      assert DecodeWithin(input, 1) == Some(result);
      StopsAtOnce(input);
    }
  }

  lemma {:induction false} DotsBehind(a: seq<Byte>, x: seq<Byte>)
    requires HasDotDot(x)
    ensures HasDotDot(a + x)
  {
    if a == [] {
      assert a + x == x;
    } else {
      assert (a + x)[1..] == a[1..] + x;
      DotsBehind(a[1..], x);
    }
  }

  /** Decoding never pulls two dots apart. */
  lemma {:induction false} DotsPersist(x: seq<Byte>)
    requires HasDotDot(x)
    ensures HasDotDot(Pass(x))
    decreases |x|
  {
    if IsEscape(x) {
      assert x[1..][1..] == x[2..] && x[2..][1..] == x[3..];
      assert HasDotDot(x[1..]) && HasDotDot(x[2..]) && HasDotDot(x[3..]);
      DotsPersist(x[3..]);
      DotsBehind(Encoded(Value(x)), Pass(x[3..]));
    } else if x[0] == DOT && x[1] == DOT {
      assert x[1..][0] == DOT;
      assert Pass(x) == [DOT] + ([DOT] + Pass(x[1..][1..]));
    } else {
      DotsPersist(x[1..]);
      DotsBehind(Encoded(x[0]), Pass(x[1..]));
    }
  }

  /** Without a percent sign a pass only widens bytes and makes no dots meet. */
  lemma {:induction false} NoNewDots(x: seq<Byte>)
    requires PERCENT !in x && HasDotDot(Pass(x))
    ensures HasDotDot(x)
    decreases |x|
  {
    if x != [] {
      var e, rest := Encoded(x[0]), Pass(x[1..]);
      if x[0] >= 0x80 {
        assert (e + rest)[1..] == [e[1]] + rest && ([e[1]] + rest)[1..] == rest;
        NoNewDots(x[1..]);
      } else {
        assert (e + rest)[1..] == rest;
        if x[0] == DOT && rest != [] && rest[0] == DOT {
          assert x[1] == DOT by {
            assert Pass(x[1..])[0] == Encoded(x[1])[0];
          }
        } else {
          NoNewDots(x[1..]);
        }
      }
    }
  }

  lemma {:induction false} DotsIterate(x: seq<Byte>, k: nat)
    requires HasDotDot(x)
    ensures HasDotDot(Iterated(x, k))
    decreases k
  {
    if k > 0 {
      DotsPersist(x);
      DotsIterate(Pass(x), k - 1);
    }
  }

  lemma {:induction false} IteratedPlus(x: seq<Byte>, j: nat, k: nat)
    ensures Iterated(Iterated(x, j), k) == Iterated(x, j + k)
    decreases j
  {
    if j > 0 { IteratedPlus(Pass(x), j - 1, k); }
  }

  /** A result of the recursion: some number of decodings, after which dots no longer
      appear. */
  lemma {:induction false} ResultIsIterate(x: seq<Byte>, n: nat) returns (k: nat)
    requires DecodeWithin(x, n).Some?
    ensures Iterated(x, k) == DecodeWithin(x, n).value
    ensures var r := DecodeWithin(x, n).value; PERCENT !in r || Pass(r) == r
    decreases n
  {
    var y := Pass(x);
    if PERCENT in y && y != x {
      k := ResultIsIterate(y, n - 1);
      k := k + 1;
    } else {
      k := 1;
      assert Iterated(x, 1) == Iterated(y, 0);
    }
  }

  lemma {:induction false} NoDotsLater(r: seq<Byte>, k: nat)
    requires PERCENT !in r || Pass(r) == r
    requires HasDotDot(Iterated(r, k))
    ensures HasDotDot(r)
    decreases k
  {
    if k > 0 {
      PercentFromPercent(r);
      NoDotsLater(Pass(r), k - 1);
      if PERCENT !in r { NoNewDots(r); }
    }
  }

  /** Two dots side by side. */
  ghost predicate ShowsDots(x: seq<Byte>) {
    exists i :: 0 <= i < |x| - 1 && x[i] == x[i + 1] == '.' as int
  }

  lemma {:induction false} ShowsDotsIs(x: seq<Byte>)
    ensures HasDotDot(x) <==> ShowsDots(x)
  {
    if |x| >= 2 {
      ShowsDotsIs(x[1..]);
      if i :| 0 <= i < |x| - 1 && x[i] == x[i + 1] == '.' as int && i > 0 {
        assert x[1..][i - 1] == x[i] && x[1..][i] == x[i + 1];
      }
      if i :| 0 <= i < |x[1..]| - 1 && x[1..][i] == x[1..][i + 1] == '.' as int {
        assert x[i + 1] == x[1..][i] && x[i + 2] == x[1..][i + 1];
      }
    }
  }

  ghost predicate ShownAfter(path: seq<Byte>, k: nat) {
    ShowsDots(Iterated(path, k))
  }

  /** No number of decodings shows dots. */
  ghost predicate NeverDots(path: seq<Byte>) {
    forall k: nat :: !ShownAfter(path, k)
  }

  /** The two checks accept a path exactly when no number of decodings shows `..` in it. */
  lemma {:induction false} GuardExact(path: seq<Byte>, n: nat)
    requires DecodeWithin(path, n).Some?
    ensures !HasDotDot(path) && !HasDotDot(DecodeWithin(path, n).value) <==> NeverDots(path)
  {
    var r := DecodeWithin(path, n).value;
    var m := ResultIsIterate(path, n);
    assert Iterated(path, 0) == path;
    ShowsDotsIs(path);
    ShowsDotsIs(r);
    if HasDotDot(path) {
      assert ShownAfter(path, 0);
    } else if HasDotDot(r) {
      assert ShownAfter(path, m);
    } else {
      forall k: nat ensures !ShownAfter(path, k) {
        ShowsDotsIs(Iterated(path, k));
        if HasDotDot(Iterated(path, k)) { DotsReach(path, k, m, r); }
      }
    }
  }

  /** Dots after `k` decodings are still there at the result, or were there already. */
  lemma {:induction false} DotsReach(path: seq<Byte>, k: nat, m: nat, r: seq<Byte>)
    requires HasDotDot(Iterated(path, k)) && Iterated(path, m) == r && (PERCENT !in r || Pass(r) == r)
    ensures HasDotDot(r)
  {
    if k <= m {
      DotsIterate(Iterated(path, k), m - k);
      IteratedPlus(path, k, m - k);
    } else {
      IteratedPlus(path, m, k - m);
      NoDotsLater(r, k - m);
    }
  }

  lemma {:induction false} PassOfPlain(x: seq<Byte>)
    requires PERCENT !in x && Ascii(x)
    ensures Pass(x) == x
  {
    if x != [] { PassOfPlain(x[1..]); }
  }

  /** The result is a fixpoint of decoding exactly when it is ASCII. */
  lemma {:induction false} ResultFixpoint(path: seq<Byte>, n: nat)
    requires DecodeWithin(path, n).Some?
    ensures var r := DecodeWithin(path, n).value; Pass(r) == r <==> Ascii(r)
  {
    var r := DecodeWithin(path, n).value;
    var k := ResultIsIterate(path, n);
    AsciiHasNoHighBytes(r);
    HighBytesDouble(r);
    if Ascii(r) && PERCENT !in r { PassOfPlain(r); }
  }

  /** `%80` is decoded to a character that decodes to yet another one. */
  lemma {:induction false} WideningExample()
    ensures var r := DecodeWithin([PERCENT, 0x38, 0x30], 1); r == Some([0xC2, 0x80]) && Pass(r.value) != r.value
  {
    var x: seq<Byte> := [PERCENT, 0x38, 0x30];
    var r: seq<Byte> := [0xC2, 0x80];
    assert IsEscape(x) && Value(x) == 0x80 && x[3..] == [];
    assert Pass(x) == r;
    assert DecodeWithin(x, 1) == Some(r);
    assert !Ascii(r) by { assert r[0] == 0xC2; }
    ResultFixpoint(x, 1);
  }

  /** Between ASCII strings a pass is the identity or shortens. */
  lemma {:induction false} AsciiPassShrinks(x: seq<Byte>)
    requires Ascii(x) && Ascii(Pass(x))
    ensures Pass(x) == x || |Pass(x)| < |x|
  {
    SkeletonShows(x);
    SkeletonShows(Pass(x));
    PassOnSkeleton(x);
    SkeletonPassShrinks(x);
  }

  /** A string whose decodings all stay ASCII settles, each of them being shorter than the
      one before it until they repeat. */
  lemma {:induction false} AsciiSettles(x: seq<Byte>)
    requires forall k: nat :: Ascii(Iterated(x, k))
    ensures Settles(x)
    ensures forall k: nat :: Iterated(x, k + 1) == Iterated(x, k) || |Iterated(x, k + 1)| < |Iterated(x, k)|
    decreases |x|
  {
    assert Ascii(x) && Ascii(Pass(x)) by { assert Ascii(Iterated(x, 0)) && Ascii(Iterated(x, 1)); }
    forall k: nat ensures Iterated(x, k + 1) == Iterated(x, k) || |Iterated(x, k + 1)| < |Iterated(x, k)| {
      IteratedPlus(x, k, 1);
      assert Iterated(x, k + 1) == Pass(Iterated(x, k)) by { assert Iterated(Pass(Iterated(x, k)), 0) == Pass(Iterated(x, k)); }
      assert Ascii(Iterated(x, k)) && Ascii(Iterated(x, k + 1));
      AsciiPassShrinks(Iterated(x, k));
    }
    AsciiPassShrinks(x);
    if Pass(x) == x {
      SkeletonShows(x);
      PassOnSkeleton(x);
      assert Core(x) == x;
    } else {
      forall k: nat ensures Ascii(Iterated(Pass(x), k)) { assert Iterated(x, k + 1) == Iterated(Pass(x), k); }
      AsciiSettles(Pass(x));
      CoreOfPass(x);
    }
  }

  // ------------------------------------------------------------- dots as written

  /** A dot as itself, as `%2e` or as `%2E`. */
  predicate WrittenDot(d: seq<Byte>) {
    d == ['.' as int] || d == ['%' as int, '2' as int, 'e' as int] || d == ['%' as int, '2' as int, 'E' as int]
  }

  /** A path with two written dots side by side. */
  ghost predicate WritesDots(path: seq<Byte>) {
    exists u, d, e, v :: WrittenDot(d) && WrittenDot(e) && path == u + (d + (e + v))
  }

  /** No escape reaches over the beginning of `y`. */
  lemma {:induction false} PassConcat(x: seq<Byte>, y: seq<Byte>)
    requires y != [] && HexDigit(y[0]).None?
    ensures Pass(x + y) == Pass(x) + Pass(y)
    decreases |x|
  {
    if x == [] {
      assert x + y == y;
    } else {
      assert (x + y)[1..] == x[1..] + y;
      assert IsEscape(x + y) <==> IsEscape(x) by {
        assert |x| == 1 ==> (x + y)[1] == y[0];
        assert |x| == 2 ==> (x + y)[2] == y[0];
      }
      if IsEscape(x) {
        assert (x + y)[3..] == x[3..] + y;
        PassConcat(x[3..], y);
        Assoc(Encoded(Value(x)), Pass(x[3..]), Pass(y));
      } else {
        PassConcat(x[1..], y);
        Assoc(Encoded(x[0]), Pass(x[1..]), Pass(y));
      }
    }
  }

  lemma {:induction false} PassDot(d: seq<Byte>, v: seq<Byte>)
    requires WrittenDot(d)
    ensures Pass(d + v) == ['.' as int] + Pass(v) && HexDigit((d + v)[0]).None?
  {
    var x := d + v;
    if |d| == 3 {
      assert x[3..] == v && x[0] == PERCENT && x[1] == '2' as int && (x[2] == 'e' as int || x[2] == 'E' as int);
    } else {
      assert x[1..] == v;
    }
  }

  lemma {:induction false} WrittenDotsShow(path: seq<Byte>)
    requires WritesDots(path)
    ensures HasDotDot(Iterated(path, 1))
  {
    var u, d, e, v :| WrittenDot(d) && WrittenDot(e) && path == u + (d + (e + v));
    PassDot(d, e + v);
    PassDot(e, v);
    PassConcat(u, d + (e + v));
    assert Iterated(path, 1) == Iterated(Pass(path), 0);
    var two := ['.' as int] + (['.' as int] + Pass(v));
    assert HasDotDot(two);
    DotsBehind(Pass(u), two);
  }

  lemma {:induction false} WrittenDotsRefused(path: seq<Byte>)
    requires ShowsDots(path) || WritesDots(path)
    ensures !NeverDots(path)
  {
    assert Iterated(path, 0) == path;
    if WritesDots(path) {
      WrittenDotsShow(path);
      ShowsDotsIs(Iterated(path, 1));
      assert ShownAfter(path, 1);
    } else {
      assert ShownAfter(path, 0);
    }
  }

  /** The path checks of `RequestValidator::process`; a literal `..` is refused before any
      decoding. */
  method AcceptsPath(path: seq<Byte>) returns (ok: bool)
    requires HasDotDot(path) || Settles(path)
    ensures ok <==> NeverDots(path)
    ensures ShowsDots(path) || WritesDots(path) ==> !ok
  {
    if ShowsDots(path) || WritesDots(path) { WrittenDotsRefused(path); }
    if HasDotDot(path) {
      ShowsDotsIs(path);
      assert Iterated(path, 0) == path && ShownAfter(path, 0);
      return false;
    }
    var decoded := UrlencodingDecode(path);
    ghost var n: nat :| DecodeWithin(path, n) == Some(decoded);
    GuardExact(path, n);
    ok := !HasDotDot(decoded);
  }
}
