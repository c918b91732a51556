/** The environment fingerprint: FNV-1a over 64 bits, used as a change detector. */
module Fingerprint {
  import opened Wrappers

  const FNV_OFFSET: Word := 0xcbf29ce484222325
  const SEPARATOR: Byte := 0xff

  /** A 64-bit unsigned state. */
  type Word = n: nat | n < 0x1_0000_0000_0000_0000

  // ----- The bytes that are hashed, and the hash of a byte string -----

  /** The byte stream the nested loops feed to the hash: every part, each followed by the separator. */
  function Stream(parts: seq<seq<Byte>>): seq<Byte> {
    if parts == [] then [] else parts[0] + [SEPARATOR] + Stream(parts[1..])
  }

  /** Exclusive or, bit by bit. */
  function Xor(a: nat, b: nat): nat
    decreases a + b
  {
    if a == 0 && b == 0 then 0 else (a % 2 + b % 2) % 2 + 2 * Xor(a / 2, b / 2)
  }

  function Pow2(n: nat): nat {
    if n == 0 then 1 else 2 * Pow2(n - 1)
  }

  lemma {:induction false} XorFits(a: nat, b: nat, width: nat)
    requires a < Pow2(width) && b < Pow2(width)
    ensures Xor(a, b) < Pow2(width)
    decreases width
  {
    if width > 0 {
      XorFits(a / 2, b / 2, width - 1);
    }
  }

  lemma WordWidth()
    ensures Pow2(64) == 0x1_0000_0000_0000_0000
  {
    PowerDoubles(32, 32);
    PowerDoubles(16, 16);
    PowerDoubles(8, 8);
    PowerDoubles(4, 4);
  }

  lemma {:induction false} PowerDoubles(m: nat, n: nat)
    ensures Pow2(m + n) == Pow2(m) * Pow2(n)
    decreases n
  {
    if n > 0 {
      PowerDoubles(m, n - 1);
      assert Pow2(m + n) == 2 * Pow2(m + (n - 1));
    }
  }

  function XorByte(hash: Word, byte: Byte): Word {
    WordWidth();
    XorFits(hash, byte as nat, 64);
    Xor(hash, byte as nat)
  }

  /** Wrapping multiplication by the 64-bit FNV prime. */
  function TimesPrime(hash: Word): Word {
    hash * 0x100000001b3 % 0x1_0000_0000_0000_0000
  }

  /** One step of FNV-1a (section 2 of draft-eastlake-fnv). */
  function Step(hash: Word, byte: Byte): Word {
    TimesPrime(XorByte(hash, byte))
  }

  function Fold<S, B>(step: (S, B) -> S, state: S, inputs: seq<B>): S
    decreases |inputs|
  {
    if inputs == [] then state else Fold(step, step(state, inputs[0]), inputs[1..])
  }

  function Fnv(bytes: seq<Byte>): Word {
    Fold(Step, FNV_OFFSET, bytes)
  }

  // ----- Sixteen lowercase hexadecimal digits -----

  function HexDigit(n: nat): char
    requires n < 16
  {
    "0123456789abcdef"[n]
  }

  function Hex(n: nat, width: nat): (digits: string)
    ensures |digits| == width
  {
    if width == 0 then "" else Hex(n / 16, width - 1) + [HexDigit(n % 16)]
  }

  function FingerprintOf(parts: seq<seq<Byte>>): string {
    Hex(Fnv(Stream(parts)), 16)
  }

  method Compute(parts: seq<seq<Byte>>) returns (text: string)
    ensures text == FingerprintOf(parts)
  {
    var hash := FNV_OFFSET;
    for i := 0 to |parts|
      invariant Fold(Step, hash, Stream(parts[i..])) == Fnv(Stream(parts))
    {
      var part := parts[i];
      ghost var after := [SEPARATOR] + Stream(parts[i + 1..]);
      assert part[0..] + after == Stream(parts[i..]) by {
        assert part[0..] == part && parts[i..][1..] == parts[i + 1..];
      }
      for j := 0 to |part|
        invariant Fold(Step, hash, part[j..] + after) == Fnv(Stream(parts))
      {
        assert (part[j..] + after)[1..] == part[j + 1..] + after;
        hash := XorByte(hash, part[j]);
        hash := TimesPrime(hash);
      }
      assert part[|part|..] + after == after && after[1..] == Stream(parts[i + 1..]);
      hash := XorByte(hash, SEPARATOR);
      hash := TimesPrime(hash);
    }
    text := Hex(hash, 16);
  }

  // ----- Every step loses nothing -----

  /** The prime is odd, so multiplying by it modulo 2^64 is undone by multiplying by its inverse. */
  lemma PrimeIsInvertible(x: Word)
    ensures TimesPrime(x) * 0xce965057aff6957b % 0x1_0000_0000_0000_0000 == x
  {
    var q := x * 0x100000001b3 / 0x1_0000_0000_0000_0000;
    var t := x * 0xce9650590f - q * 0xce965057aff6957b;
    assert TimesPrime(x) * 0xce965057aff6957b == x + 0x1_0000_0000_0000_0000 * t;
  }

  lemma XorBits(a: nat, b: nat)
    ensures Xor(a, b) % 2 == (a % 2 + b % 2) % 2
    ensures Xor(a, b) / 2 == Xor(a / 2, b / 2)
  {
  }

  lemma {:induction false} XorUndone(a: nat, b: nat)
    ensures Xor(Xor(a, b), b) == a
    decreases a + b
  {
    if a != 0 || b != 0 {
      var x := Xor(a, b);
      var y := Xor(x, b);
      assert y / 2 == a / 2 by {
        XorUndone(a / 2, b / 2);
        XorBits(a, b);
        XorBits(x, b);
      }
      assert y % 2 == a % 2 by {
        XorBits(a, b);
        XorBits(x, b);
        ParityUndone(a % 2, b % 2);
      }
      SameHalvesSameNumber(y, a);
    }
  }

  lemma ParityUndone(p: nat, q: nat)
    requires p < 2 && q < 2
    ensures ((p + q) % 2 + q) % 2 == p
  {
  }

  lemma {:induction false} XorCommutes(a: nat, b: nat)
    ensures Xor(a, b) == Xor(b, a)
    decreases a + b
  {
    if a != 0 || b != 0 {
      XorCommutes(a / 2, b / 2);
    }
  }

  lemma SameHalvesSameNumber(a: nat, b: nat)
    requires a / 2 == b / 2 && a % 2 == b % 2
    ensures a == b
  {
  }

  /** For a fixed byte a step is injective in the state, and for a fixed state it is injective in the byte. */
  lemma StepIsInjective(h: Word, k: Word, b: Byte, c: Byte)
    ensures Step(h, b) == Step(k, b) ==> h == k
    ensures Step(h, b) == Step(h, c) ==> b == c
  {
    PrimeIsInvertible(XorByte(h, b));
    PrimeIsInvertible(XorByte(k, b));
    PrimeIsInvertible(XorByte(h, c));
    XorUndone(h, b as nat);
    XorUndone(k, b as nat);
    XorUndone(b as nat, h);
    XorUndone(c as nat, h);
    XorCommutes(h, b as nat);
    XorCommutes(h, c as nat);
  }

  ghost predicate Injective<S(!new), B(!new)>(step: (S, B) -> S) {
    && (forall s, t, b :: step(s, b) == step(t, b) ==> s == t)
    && (forall s, b, c :: step(s, b) == step(s, c) ==> b == c)
  }

  lemma {:induction false} FoldIsInjective<S(!new), B(!new)>(step: (S, B) -> S, s: S, t: S, inputs: seq<B>)
    requires Injective(step)
    ensures Fold(step, s, inputs) == Fold(step, t, inputs) ==> s == t
    decreases |inputs|
  {
    if inputs != [] {
      FoldIsInjective(step, step(s, inputs[0]), step(t, inputs[0]), inputs[1..]);
    }
  }

  lemma {:induction false} FoldConcat<S, B>(step: (S, B) -> S, s: S, first: seq<B>, second: seq<B>)
    ensures Fold(step, s, first + second) == Fold(step, Fold(step, s, first), second)
    decreases |first|
  {
    if first == [] {
      assert first + second == second;
    } else {
      assert (first + second)[1..] == first[1..] + second;
      FoldConcat(step, step(s, first[0]), first[1..], second);
    }
  }

  /** Folding an injective step over two inputs of one length that differ at a single place. */
  lemma OneInputChangesFold<S(!new), B(!new)>(step: (S, B) -> S, s: S, inputs: seq<B>, k: nat, b: B)
    requires Injective(step)
    requires k < |inputs| && b != inputs[k]
    ensures Fold(step, s, inputs[k := b]) != Fold(step, s, inputs)
  {
    var before, after := inputs[..k], inputs[k + 1..];
    assert inputs == before + ([inputs[k]] + after) && inputs[k := b] == before + ([b] + after);
    FoldConcat(step, s, before, [inputs[k]] + after);
    FoldConcat(step, s, before, [b] + after);
    var state := Fold(step, s, before);
    assert ([inputs[k]] + after)[1..] == after && ([b] + after)[1..] == after;
    FoldIsInjective(step, step(state, inputs[k]), step(state, b), after);
  }

  lemma FnvStepsAreInjective()
    ensures Injective(Step)
  {
    forall h: Word, k: Word, b: Byte ensures Step(h, b) == Step(k, b) ==> h == k {
      StepIsInjective(h, k, b, b);
    }
    forall h: Word, b: Byte, c: Byte ensures Step(h, b) == Step(h, c) ==> b == c {
      StepIsInjective(h, h, b, c);
    }
  }

  lemma FourMoreBits(width: nat)
    ensures Pow2(4 * (width + 1)) == 16 * Pow2(4 * width)
  {
    PowerDoubles(4 * width, 4);
    assert Pow2(4) == 16;
  }

  lemma {:induction false} HexIsInjective(m: nat, n: nat, width: nat)
    requires m < Pow2(4 * width) && n < Pow2(4 * width)
    ensures Hex(m, width) == Hex(n, width) ==> m == n
  {
    if width > 0 {
      FourMoreBits(width - 1);
      HexIsInjective(m / 16, n / 16, width - 1);
      assert Hex(m, width)[..width - 1] == Hex(m / 16, width - 1);
      assert Hex(n, width)[..width - 1] == Hex(n / 16, width - 1);
      assert Hex(m, width)[width - 1] == HexDigit(m % 16) && Hex(n, width)[width - 1] == HexDigit(n % 16);
      HexDigitsDiffer(m % 16, n % 16);
    }
  }

  lemma HexDigitsDiffer(m: nat, n: nat)
    requires m < 16 && n < 16
    ensures HexDigit(m) == HexDigit(n) ==> m == n
  {
  }

  /** The value of a hexadecimal digit in lower case, and of a string of them. */
  function DigitValue(c: char): nat {
    if '0' <= c <= '9' then c as nat - '0' as nat else if 'a' <= c <= 'f' then c as nat - 'a' as nat + 10 else 0
  }

  function HexValue(s: string): nat {
    if s == "" then 0 else 16 * HexValue(s[..|s| - 1]) + DigitValue(s[|s| - 1])
  }

  predicate IsHexText(s: string) {
    forall k :: 0 <= k < |s| ==> '0' <= s[k] <= '9' || 'a' <= s[k] <= 'f'
  }

  lemma HexDigitIs(n: nat)
    requires n < 16
    ensures DigitValue(HexDigit(n)) == n && ('0' <= HexDigit(n) <= '9' || 'a' <= HexDigit(n) <= 'f')
  {
  }

  lemma OneMoreHexDigit(digits: string, n: nat)
    requires n < 16 && IsHexText(digits)
    ensures HexValue(digits + [HexDigit(n)]) == 16 * HexValue(digits) + n && IsHexText(digits + [HexDigit(n)])
  {
    HexDigitIs(n);
    assert (digits + [HexDigit(n)])[..|digits|] == digits;
  }

  lemma SixteenthFits(n: nat, p: nat)
    requires n < 16 * p
    ensures n / 16 < p
  {
  }

  /** The text is the number in hexadecimal, in lower case and padded to its width. */
  lemma {:induction false} HexSpells(n: nat, width: nat)
    requires n < Pow2(4 * width)
    ensures HexValue(Hex(n, width)) == n && IsHexText(Hex(n, width))
  {
    if width > 0 {
      FourMoreBits(width - 1);
      SixteenthFits(n, Pow2(4 * (width - 1)));
      HexSpells(n / 16, width - 1);
      OneMoreHexDigit(Hex(n / 16, width - 1), n % 16);
    } else {
      assert Pow2(0) == 1;
    }
  }

  // ----- The hash is FNV-1a -----

  function Bit(n: nat, k: nat): nat {
    if k == 0 then n % 2 else Bit(n / 2, k - 1)
  }

  /** Exclusive or is what it says of every bit. */
  lemma {:induction false} XorIsBitwise(a: nat, b: nat, k: nat)
    ensures Bit(Xor(a, b), k) == if Bit(a, k) != Bit(b, k) then 1 else 0
    decreases k
  {
    XorBits(a, b);
    if k > 0 {
      XorIsBitwise(a / 2, b / 2, k - 1);
    }
  }

  lemma {:induction false} XorWithZero(a: nat)
    ensures Xor(a, 0) == a
  {
    if a > 0 {
      XorWithZero(a / 2);
    }
  }

  lemma XorStep(a: nat, b: nat, p: nat, q: nat)
    requires p < 2 && q < 2
    ensures Xor(2 * a + p, 2 * b + q) == 2 * Xor(a, b) + (p + q) % 2
  {
    Halves(a, p);
    Halves(b, q);
    XorOf(2 * a + p, 2 * b + q, a, b, p, q);
  }

  lemma Halves(a: nat, p: nat)
    requires p < 2
    ensures (2 * a + p) / 2 == a && (2 * a + p) % 2 == p
  {
  }

  lemma XorOf(x: nat, y: nat, a: nat, b: nat, p: nat, q: nat)
    requires x / 2 == a && y / 2 == b && x % 2 == p && y % 2 == q
    ensures Xor(x, y) == 2 * Xor(a, b) + (p + q) % 2
  {
    XorBits(x, y);
  }

  lemma OffsetXorA()
    ensures Xor(0xcbf29ce484222325, 0x61) == 0xcbf29ce484222344
  {
    XorWithZero(0x197e539c9084446);
    XorStep(0x197e539c9084446, 0x0, 0, 1);
    XorStep(0x32fca739210888c, 0x1, 1, 1);
    XorStep(0x65f94e724211119, 0x3, 0, 0);
    XorStep(0xcbf29ce48422232, 0x6, 0, 0);
    XorStep(0x197e539c90844464, 0xc, 1, 0);
    XorStep(0x32fca739210888c9, 0x18, 0, 0);
    XorStep(0x65f94e7242111192, 0x30, 1, 1);
  }

  lemma FoldOne(state: Word, byte: Byte)
    ensures Fold(Step, state, [byte]) == Step(state, byte)
  {
    assert [byte][1..] == [];
  }

  lemma TimesPrimeIs(a: Word, product: Word, q: nat)
    requires a * 0x100000001b3 == 0x1_0000_0000_0000_0000 * q + product
    ensures TimesPrime(a) == product
  {
  }

  /** The published values for no bytes and for the one byte "a" (appendix of draft-eastlake-fnv). */
  lemma KnownHashes()
    ensures Fnv([]) == 0xcbf29ce484222325
    ensures Fnv([0x61]) == 0xaf63dc4c8601ec8c
  {
    OffsetXorA();
    TimesPrimeIs(0xcbf29ce484222344, 0xaf63dc4c8601ec8c, 0xcbf29ce5de);
    FoldOne(FNV_OFFSET, 0x61);
  }

  // ----- What the fingerprint distinguishes -----

  lemma {:induction false} StreamPosition(parts: seq<seq<Byte>>, i: nat, j: nat, b: Byte) returns (k: nat)
    requires i < |parts| && j < |parts[i]|
    ensures k < |Stream(parts)| && Stream(parts)[k] == parts[i][j]
    ensures Stream(parts[i := parts[i][j := b]]) == Stream(parts)[k := b]
    decreases i
  {
    var changed := parts[i := parts[i][j := b]];
    if i == 0 {
      k := j;
      assert changed[1..] == parts[1..];
    } else {
      assert changed[1..] == parts[1..][i - 1 := parts[1..][i - 1][j := b]];
      var k' := StreamPosition(parts[1..], i - 1, j, b);
      k := |parts[0]| + 1 + k';
    }
  }

  lemma SameFingerprintSameHash(ps: seq<seq<Byte>>, qs: seq<seq<Byte>>)
    ensures FingerprintOf(ps) == FingerprintOf(qs) <==> Fnv(Stream(ps)) == Fnv(Stream(qs))
  {
    WordWidth();
    HexIsInjective(Fnv(Stream(ps)), Fnv(Stream(qs)), 16);
  }

  /** Changing any one byte of any one part always changes the fingerprint. */
  lemma OneByteChangesFingerprint(parts: seq<seq<Byte>>, i: nat, j: nat, b: Byte)
    requires i < |parts| && j < |parts[i]| && b != parts[i][j]
    ensures FingerprintOf(parts[i := parts[i][j := b]]) != FingerprintOf(parts)
  {
    var k := StreamPosition(parts, i, j, b);
    FnvStepsAreInjective();
    OneInputChangesFold(Step, FNV_OFFSET, Stream(parts), k, b);
    SameFingerprintSameHash(parts[i := parts[i][j := b]], parts);
  }

  /** A lockfile's part: a mark for presence, then the contents. `None` is a file that cannot be read. */
  function OptionalFilePart(contents: Option<seq<Byte>>): seq<Byte> {
    match contents
    case Some(bytes) => [0x50] + bytes
    case None => [0x41]
  }

  /** Whatever the other parts are, an absent lockfile and an empty one never share a fingerprint. */
  lemma AbsentIsNotEmpty(before: seq<seq<Byte>>, after: seq<seq<Byte>>)
    ensures FingerprintOf(before + [OptionalFilePart(None)] + after)
         != FingerprintOf(before + [OptionalFilePart(Some([]))] + after)
  {
    var absent := before + [OptionalFilePart(None)] + after;
    var empty := before + [OptionalFilePart(Some([]))] + after;
    assert OptionalFilePart(None)[0 := 0x50] == OptionalFilePart(Some([]));
    assert empty == absent[|before| := absent[|before|][0 := 0x50]];
    OneByteChangesFingerprint(absent, |before|, 0, 0x50);
  }

  /** And changing any one byte of a lockfile, in any context, changes the fingerprint. */
  lemma FileByteChangesFingerprint(before: seq<seq<Byte>>, contents: seq<Byte>, j: nat, b: Byte, after: seq<seq<Byte>>)
    requires j < |contents| && b != contents[j]
    ensures FingerprintOf(before + [OptionalFilePart(Some(contents[j := b]))] + after)
         != FingerprintOf(before + [OptionalFilePart(Some(contents))] + after)
  {
    var parts := before + [OptionalFilePart(Some(contents))] + after;
    var part := OptionalFilePart(Some(contents));
    assert part[j + 1] == contents[j];
    assert OptionalFilePart(Some(contents[j := b])) == part[j + 1 := b];
    assert parts[|before|] == part;
    assert before + [OptionalFilePart(Some(contents[j := b]))] + after == parts[|before| := part[j + 1 := b]];
    OneByteChangesFingerprint(parts, |before|, j + 1, b);
  }

  // ----- The separator: which part lists the stream tells apart -----

  ghost predicate SeparatorFree(parts: seq<seq<Byte>>) {
    forall p :: p in parts ==> SEPARATOR !in p
  }

  /** No other list of as many parts is hashed as the same stream. */
  ghost predicate StreamNamesParts(parts: seq<seq<Byte>>) {
    forall others :: |others| == |parts| && Stream(others) == Stream(parts) ==> others == parts
  }

  lemma {:induction false} StreamConcat(ps: seq<seq<Byte>>, qs: seq<seq<Byte>>)
    ensures Stream(ps + qs) == Stream(ps) + Stream(qs)
  {
    if ps == [] {
      assert ps + qs == qs;
    } else {
      assert (ps + qs)[1..] == ps[1..] + qs;
      StreamConcat(ps[1..], qs);
    }
  }

  function Separators(bytes: seq<Byte>): nat {
    multiset(bytes)[SEPARATOR]
  }

  lemma {:induction false} StreamSeparators(parts: seq<seq<Byte>>)
    ensures Separators(Stream(parts)) >= |parts|
    ensures Separators(Stream(parts)) == |parts| <==> SeparatorFree(parts)
  {
    if parts != [] {
      StreamSeparators(parts[1..]);
      var head, rest := parts[0] + [SEPARATOR], Stream(parts[1..]);
      assert multiset(Stream(parts)) == multiset(head) + multiset(rest);
      assert multiset(head) == multiset(parts[0]) + multiset{SEPARATOR};
      assert SEPARATOR in parts[0] <==> Separators(parts[0]) > 0;
      assert parts == [parts[0]] + parts[1..];
    }
  }

  lemma {:induction false} SeparatorFreeStreams(ps: seq<seq<Byte>>, qs: seq<seq<Byte>>)
    requires SeparatorFree(ps) && SeparatorFree(qs) && Stream(ps) == Stream(qs)
    ensures ps == qs
  {
    if ps != [] && qs != [] {
      var p, q := ps[0], qs[0];
      assert ps == [p] + ps[1..] && qs == [q] + qs[1..];
      assert p in ps && q in qs;
      var s := Stream(ps);
      assert s[..|p|] == p && s[..|q|] == q;
      assert forall k :: 0 <= k < |p| ==> s[k] == p[k] && p[k] != SEPARATOR;
      assert forall k :: 0 <= k < |q| ==> s[k] == q[k] && q[k] != SEPARATOR;
      assert s[|p|] == SEPARATOR && s[|q|] == SEPARATOR;
      assert s[|p| + 1..] == Stream(ps[1..]);
      assert s[|q| + 1..] == Stream(qs[1..]);
      SeparatorFreeStreams(ps[1..], qs[1..]);
    }
  }

  /** A separator byte inside a part lets the boundary between two neighbouring parts move. */
  lemma BoundaryMoves(before: seq<seq<Byte>>, u: seq<Byte>, v: seq<Byte>, w: seq<Byte>, after: seq<seq<Byte>>)
    ensures Stream(before + [u + [SEPARATOR] + v, w] + after) == Stream(before + [u, v + [SEPARATOR] + w] + after)
    ensures [u + [SEPARATOR] + v, w] != [u, v + [SEPARATOR] + w]
  {
    var x, y := [u + [SEPARATOR] + v, w], [u, v + [SEPARATOR] + w];
    StreamConcat(before + x, after);
    StreamConcat(before, x);
    StreamConcat(before + y, after);
    StreamConcat(before, y);
    PairStream(u + [SEPARATOR] + v, w);
    PairStream(u, v + [SEPARATOR] + w);
    assert (u + [SEPARATOR] + v) + [SEPARATOR] + w == u + [SEPARATOR] + (v + [SEPARATOR] + w);
    assert |x[0]| > |y[0]|;
  }

  lemma PairStream(p: seq<Byte>, q: seq<Byte>)
    ensures Stream([p, q]) == p + [SEPARATOR] + q + [SEPARATOR]
  {
    assert [p, q][1..] == [q] && [q][1..] == [];
    assert Stream([q]) == q + [SEPARATOR];
  }

  /** A part with a separator in it lends its tail to the part behind it. */
  lemma AliasForward(before: seq<seq<Byte>>, u: seq<Byte>, v: seq<Byte>, w: seq<Byte>, after: seq<seq<Byte>>)
    ensures !StreamNamesParts(before + [u + [SEPARATOR] + v, w] + after)
  {
    BoundaryMoves(before, u, v, w, after);
    var parts, others := before + [u + [SEPARATOR] + v, w] + after, before + [u, v + [SEPARATOR] + w] + after;
    assert others[|before|] != parts[|before|];
  }

  /** Or its head to the part before it. */
  lemma AliasBackward(before: seq<seq<Byte>>, w: seq<Byte>, u: seq<Byte>, v: seq<Byte>)
    ensures !StreamNamesParts(before + [w, u + [SEPARATOR] + v] + [])
  {
    BoundaryMoves(before, w, u, v, []);
    var parts, others := before + [w, u + [SEPARATOR] + v] + [], before + [w + [SEPARATOR] + u, v] + [];
    assert others[|before|] != parts[|before|];
  }

  lemma SeparatorMakesAlias(parts: seq<seq<Byte>>)
    requires |parts| >= 2 && !SeparatorFree(parts)
    ensures !StreamNamesParts(parts)
  {
    var i :| 0 <= i < |parts| && SEPARATOR in parts[i];
    var j :| 0 <= j < |parts[i]| && parts[i][j] == SEPARATOR;
    var u, v := parts[i][..j], parts[i][j + 1..];
    assert parts[i] == u + [SEPARATOR] + v;
    if i + 1 < |parts| {
      AliasForward(parts[..i], u, v, parts[i + 1], parts[i + 2..]);
      assert parts == parts[..i] + [u + [SEPARATOR] + v, parts[i + 1]] + parts[i + 2..];
    } else {
      AliasBackward(parts[..i - 1], parts[i - 1], u, v);
      assert parts == parts[..i - 1] + [parts[i - 1], u + [SEPARATOR] + v] + [];
    }
  }

  /**
   * Separating the parts keeps `("ab", "c")` and `("a", "bc")` apart: a list is the only one of its length
   * with its stream exactly when no part contains the separator byte, or there is no boundary to move.
   */
  lemma StreamNamesPartsExactly(parts: seq<seq<Byte>>)
    ensures StreamNamesParts(parts) <==> SeparatorFree(parts) || |parts| <= 1
  {
    forall others: seq<seq<Byte>> |
      && |others| == |parts| && Stream(others) == Stream(parts)
      && (SeparatorFree(parts) || |parts| <= 1)
      ensures others == parts
    {
      if |parts| == 1 {
        assert others[1..] == [] && parts[1..] == [];
        assert Stream(others)[..|others[0]|] == others[0] && Stream(parts)[..|parts[0]|] == parts[0];
      } else if |parts| > 1 {
        StreamSeparators(parts);
        StreamSeparators(others);
        SeparatorFreeStreams(others, parts);
      }
    }
    if |parts| >= 2 && !SeparatorFree(parts) {
      SeparatorMakesAlias(parts);
    }
  }
}
