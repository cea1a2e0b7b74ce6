/** The Internet checksum of UnixRawNetworkLayerSocketServer.c, against RFC 1071. */
module Checksum {
  import opened Basics

  type Word = x: int | 0 <= x < 0x1_0000

  /** One more than the largest value of the 32-bit accumulator. */
  const WRAP := 0x1_0000_0000

  /** The longest buffer, in bytes, whose sum always fits the accumulator. */
  const MAX_LEN := 131074

  // ---------------------------------------------------------------------------------------------
  // The sum
  // ---------------------------------------------------------------------------------------------

  /** The 16-bit word whose low and high bytes are given. */
  function Pair(lo: Byte, hi: Byte): Word {
    (lo as int) + 0x100 * (hi as int)
  }

  /** The i-th little-endian word; an odd last byte is a word of its own. */
  function WordAt(b: seq<Byte>, i: nat): Word
    requires 2 * i < |b|
  {
    if 2 * i + 1 < |b| then Pair(b[2 * i], b[2 * i + 1]) else b[2 * i]
  }

  function Words(b: seq<Byte>): (ws: seq<Word>) {
    seq((|b| + 1) / 2, i requires 0 <= i < (|b| + 1) / 2 => WordAt(b, i))
  }

  function Sum(ws: seq<Word>): (s: nat)
    ensures s <= 0xFFFF * |ws|
  {
    if ws == [] then 0 else ws[0] + Sum(ws[1..])
  }

  /** The two fold lines and the complement, applied to the accumulator. */
  function Finish(sum: nat): Word {
    var once := sum / 0x1_0000 + sum % 0x1_0000;
    var twice := once + once / 0x1_0000;
    0xFFFF - twice % 0x1_0000
  }

  /** What the C function computes: the accumulator wraps at 32 bits. */
  function Code(b: seq<Byte>): Word {
    Finish(Sum(Words(b)) % WRAP)
  }

  lemma SumAppend(a: seq<Word>, b: seq<Word>)
    ensures Sum(a + b) == Sum(a) + Sum(b)
  {
    if a == [] {
      assert a + b == b;
    } else {
      assert (a + b)[1..] == a[1..] + b;
      SumAppend(a[1..], b);
    }
  }

  lemma {:induction false} SumSnoc(ws: seq<Word>, k: nat)
    requires k < |ws|
    ensures Sum(ws[..k + 1]) == Sum(ws[..k]) + ws[k]
  {
    assert ws[..k + 1] == ws[..k] + [ws[k]];
    SumAppend(ws[..k], [ws[k]]);
  }

  /** What bytes add up to when their weights alternate, starting with w. */
  function Weighed(b: seq<Byte>, w: nat): nat
    requires w <= 0x101
  {
    if b == [] then 0 else w * (b[0] as int) + Weighed(b[1..], 0x101 - w)
  }

  /** Every byte counts once, with weight 1 at even and 256 at odd positions; so does an odd last byte. */
  lemma {:induction false} SumByBytes(b: seq<Byte>)
    ensures Sum(Words(b)) == Weighed(b, 1)
    decreases |b|
  {
    if |b| >= 2 {
      assert Words(b)[1..] == Words(b[2..]);
      assert b == [b[0], b[1]] + b[2..];
      WeighedTwo(b[0], b[1], b[2..]);
      SumByBytes(b[2..]);
    } else if |b| == 1 {
      assert Words(b)[1..] == [];
    }
  }

  ghost function PrefixSum(b: seq<Byte>, k: nat): nat
    requires 2 * k <= |b| + 1
  {
    Sum(Words(b)[..k])
  }

  lemma AddWrap(s: nat, w: nat)
    ensures (s % WRAP + w) % WRAP == (s + w) % WRAP
  {
  }

  lemma {:induction false} PrefixStep(b: seq<Byte>, k: nat, sum: nat)
    requires 2 * k < |b| && sum == PrefixSum(b, k) % WRAP
    ensures (sum + WordAt(b, k)) % WRAP == PrefixSum(b, k + 1) % WRAP
  {
    SumSnoc(Words(b), k);
    assert Words(b)[k] == WordAt(b, k);
    AddWrap(PrefixSum(b, k), WordAt(b, k));
  }

  lemma NoPrefix(b: seq<Byte>)
    ensures PrefixSum(b, 0) == 0
  {
  }

  lemma {:induction false} WholePrefix(b: seq<Byte>, k: nat)
    requires |b| <= 2 * k <= |b| + 1
    ensures PrefixSum(b, k) == Sum(Words(b))
  {
    assert Words(b)[..k] == Words(b);
  }

  /** The summing loop: buf advances, len falls by two, sum is a 32-bit unsigned accumulator. */
  method Accumulate(b: array<Byte>, len: int) returns (sum: nat)
    requires len <= b.Length
    ensures 0 <= len ==> sum == Sum(Words(b[..len])) % WRAP
    ensures len < 0 ==> sum == 0
  {
    hide PrefixSum, Sum, Words, Pair;
    ghost var data := if len < 0 then [] else b[..len];
    ghost var k := 0;
    NoPrefix(data);
    var buf, left := 0, len;
    sum := 0;
    while left > 1
      invariant buf == 2 * k && 2 * k <= |data| && sum == PrefixSum(data, k) % WRAP
      invariant if len < 0 then left == len else left == |data| - buf
    {
      PrefixStep(data, k, sum);
      sum := (sum + Pair(b[buf], b[buf + 1])) % WRAP;
      buf, left, k := buf + 2, left - 2, k + 1;
    }
    if left == 1 {
      PrefixStep(data, k, sum);
      sum := (sum + b[buf]) % WRAP;
      k := k + 1;
    }
    WholePrefix(data, k);
  }

  /** The two fold lines and the complement. */
  method Fold(accumulator: nat) returns (result: Word)
    ensures result == Finish(accumulator)
    ensures accumulator < WRAP ==> result == 0xFFFF - FoldAll(accumulator)
  {
    var sum := accumulator / 0x1_0000 + accumulator % 0x1_0000;
    sum := sum + sum / 0x1_0000;
    result := 0xFFFF - sum % 0x1_0000;
    if accumulator < WRAP {
      TwoFoldsSuffice(accumulator);
    }
  }

  /** The C function. */
  method InternetChecksum(b: array<Byte>, len: int) returns (result: Word)
    requires len <= b.Length
    ensures 0 <= len ==> result == Code(b[..len])
    ensures 0 <= len <= MAX_LEN ==> result == Rfc1071(b[..len])
    ensures len < 0 ==> result == 0xFFFF
  {
    var sum := Accumulate(b, len);
    result := Fold(sum);
    if 0 <= len <= MAX_LEN {
      WithinBound(b[..len]);
    }
  }

  // ---------------------------------------------------------------------------------------------
  // The reference: RFC 1071
  // ---------------------------------------------------------------------------------------------

  /** Section 4.1 of RFC 1071: fold until no carry is left. */
  function FoldAll(s: nat): Word {
    if s < 0x1_0000 then s else FoldAll(s % 0x1_0000 + s / 0x1_0000)
  }

  /** The checksum of RFC 1071 with an accumulator that never wraps. */
  function Rfc1071(b: seq<Byte>): Word {
    0xFFFF - FoldAll(Sum(Words(b)))
  }

  /** The representative of s modulo 65535 that is zero for zero only. */
  function Residue(s: nat): Word {
    if s == 0 then 0 else (s - 1) % 0xFFFF + 1
  }

  lemma ResidueShift(s: nat, t: nat, q: int)
    requires s > 0 && t > 0 && s == t + 0xFFFF * q
    ensures Residue(s) == Residue(t)
  {
  }

  lemma {:induction false} FoldAllIsResidue(s: nat)
    ensures FoldAll(s) == Residue(s)
    decreases s
  {
    if s >= 0x1_0000 {
      var t := s % 0x1_0000 + s / 0x1_0000;
      FoldAllIsResidue(t);
      ResidueShift(s, t, s / 0x1_0000);
    }
  }

  /** The worked example of section 3 of RFC 1071: the bytes sum to 0xF2DD in swapped order. */
  lemma {:induction false} WorkedExample()
    ensures Code([0x00, 0x01, 0xF2, 0x03, 0xF4, 0xF5, 0xF6, 0xF7]) == 0xFFFF - 0xF2DD
  {
    hide Sum, Words, Weighed, Finish;
    var b4: seq<Byte> := [0xF6, 0xF7];
    var b3 := [0xF4, 0xF5] + b4;
    var b2 := [0xF2, 0x03] + b3;
    var b1 := [0x00, 0x01] + b2;
    assert b1 == [0x00, 0x01, 0xF2, 0x03, 0xF4, 0xF5, 0xF6, 0xF7];
    SumByBytes(b1);
    WeighedTwo(0x00, 0x01, b2);
    WeighedTwo(0xF2, 0x03, b3);
    WeighedTwo(0xF4, 0xF5, b4);
    assert b4 == b4 + [];
    WeighedTwo(0xF6, 0xF7, []);
    NothingWeighs();
    FinishExample();
  }

  lemma FinishExample()
    ensures Finish(0x1_F2DC) == 0xFFFF - 0xF2DD
  {
  }

  lemma WeighedTwo(lo: Byte, hi: Byte, rest: seq<Byte>)
    ensures Weighed([lo, hi] + rest, 1) == Pair(lo, hi) + Weighed(rest, 1)
  {
    assert ([lo, hi] + rest)[1..][1..] == rest;
  }

  lemma NothingWeighs()
    ensures Weighed([], 1) == 0
  {
  }

  /** Two fixed fold lines are enough for every 32-bit accumulator. */
  lemma TwoFoldsSuffice(s: nat)
    requires s < WRAP
    ensures Finish(s) == 0xFFFF - FoldAll(s)
    ensures Finish(s) == 0xFFFF - Residue(s)
  {
    FoldAllIsResidue(s);
    var once := s / 0x1_0000 + s % 0x1_0000;
    assert Residue(s) == Residue(once) by {
      if s > 0 {
        ResidueShift(s, once, s / 0x1_0000);
      }
    }
    assert once <= 0x1_FFFE;
  }

  lemma {:induction false} WithinBound(b: seq<Byte>)
    requires |b| <= MAX_LEN
    ensures Sum(Words(b)) < WRAP
    ensures Code(b) == Rfc1071(b)
    ensures Code(b) == 0xFFFF - Residue(Sum(Words(b)))
  {
    var s := Sum(Words(b));
    SumFits(Words(b));
    NoWrap(s);
    TwoFoldsSuffice(s);
  }

  lemma {:induction false} SumFits(ws: seq<Word>)
    requires |ws| <= (MAX_LEN + 1) / 2
    ensures Sum(ws) < WRAP
  {
  }

  lemma NoWrap(s: nat)
    requires s < WRAP
    ensures s % WRAP == s
  {
  }

  /** For every length an int can hold, the code is right exactly when the accumulator does not wrap. */
  lemma {:induction false} RightIffNoWrap(b: seq<Byte>)
    requires |b| < 0x8000_0000
    ensures Code(b) == Rfc1071(b) <==> Sum(Words(b)) < WRAP
  {
    var s := Sum(Words(b));
    assert s < 0x4000_0000_0000;
    TwoFoldsSuffice(s % WRAP);
    FoldAllIsResidue(s);
    if s < WRAP {
      NoWrap(s);
    } else {
      WrapChangesResidue(s % WRAP, s / WRAP);
    }
  }

  lemma WrapChangesResidue(r: nat, q: nat)
    requires 0 < q < 0xFFFF
    ensures Residue(q * WRAP + r) != Residue(r)
  {
  }

  lemma {:induction false} FullWords(ws: seq<Word>)
    requires forall i | 0 <= i < |ws| :: ws[i] == 0xFFFF
    ensures Sum(ws) == 0xFFFF * |ws|
  {
    if ws != [] {
      FullWords(ws[1..]);
    }
  }

  lemma {:induction false} OnesOverflow(b: seq<Byte>)
    requires |b| > MAX_LEN && forall i | 0 <= i < |b| :: b[i] == 0xFF
    ensures Sum(Words(b)) >= WRAP
  {
    var ws := Words(b);
    var full := MAX_LEN / 2;
    FullWords(ws[..full]);
    SumSnoc(ws, full);
    SumAppend(ws[..full + 1], ws[full + 1..]);
    assert ws == ws[..full + 1] + ws[full + 1..];
  }

  /** The length bound is tight: it is exactly the set of lengths for which no buffer goes wrong. */
  lemma {:induction false} LengthBoundIsTight(n: nat)
    requires n < 0x8000_0000
    ensures (forall b: seq<Byte> | |b| == n :: Code(b) == Rfc1071(b)) <==> n <= MAX_LEN
  {
    if n <= MAX_LEN {
      forall b: seq<Byte> | |b| == n
        ensures Code(b) == Rfc1071(b)
      {
        WithinBound(b);
      }
    } else {
      var b: seq<Byte> := seq(n, _ => 0xFF);
      OnesOverflow(b);
      RightIffNoWrap(b);
    }
  }

  // ---------------------------------------------------------------------------------------------
  // Section 2 of RFC 1071: order, grouping and byte order do not matter
  // ---------------------------------------------------------------------------------------------

  lemma {:induction false} SumRemove(ws: seq<Word>, i: nat)
    requires i < |ws|
    ensures Sum(ws) == ws[i] + Sum(ws[..i] + ws[i + 1..])
  {
    SumAppend(ws[..i], ws[i..]);
    SumAppend(ws[..i], ws[i + 1..]);
    assert ws == ws[..i] + ws[i..] && ws[i..][1..] == ws[i + 1..];
  }

  lemma WithoutOne<T>(s: seq<T>, i: nat)
    requires i < |s|
    ensures multiset(s) == multiset(s[..i] + s[i + 1..]) + multiset{s[i]}
  {
    assert s == s[..i] + [s[i]] + s[i + 1..];
  }

  lemma {:induction false} MatchingIndex<T>(a: seq<T>, b: seq<T>) returns (i: nat)
    requires a != [] && multiset(a) == multiset(b)
    ensures i < |b| && b[i] == a[0]
    ensures multiset(a[..0] + a[1..]) == multiset(b[..i] + b[i + 1..])
  {
    assert a[0] in multiset(b);
    i :| 0 <= i < |b| && b[i] == a[0];
    WithoutOne(a, 0);
    WithoutOne(b, i);
    assert multiset(a[..0] + a[1..]) == multiset(a) - multiset{a[0]};
    assert multiset(b[..i] + b[i + 1..]) == multiset(b) - multiset{a[0]};
  }

  lemma {:induction false} SumOfPermutation(a: seq<Word>, b: seq<Word>)
    requires multiset(a) == multiset(b)
    ensures Sum(a) == Sum(b)
    decreases |a|
  {
    if a == [] {
      assert |multiset(b)| == |b|;
    } else {
      var i := MatchingIndex(a, b);
      SumRemove(a, 0);
      SumRemove(b, i);
      SumOfPermutation(a[..0] + a[1..], b[..i] + b[i + 1..]);
    }
  }

  /** Section 2 (A): the words may be summed in any order. */
  lemma {:induction false} AnyWordOrder(a: seq<Byte>, b: seq<Byte>)
    requires multiset(Words(a)) == multiset(Words(b))
    ensures Code(a) == Code(b)
  {
    SumOfPermutation(Words(a), Words(b));
  }

  /** 16-bit ones' complement addition: the carry goes round the end. */
  function OnesAdd(x: Word, y: Word): Word {
    if x + y < 0x1_0000 then x + y else x + y - 0xFFFF
  }

  lemma {:induction false} WordsAppend(a: seq<Byte>, b: seq<Byte>)
    requires |a| % 2 == 0
    ensures Words(a + b) == Words(a) + Words(b)
  {
    assert |Words(a)| == |a| / 2;
  }

  /** Section 2 (A): a buffer may be summed in parts when every part but the last has even length. */
  lemma {:induction false} Composes(a: seq<Byte>, b: seq<Byte>)
    requires |a| % 2 == 0 && |a| + |b| <= MAX_LEN
    ensures 0xFFFF - Code(a + b) == OnesAdd(0xFFFF - Code(a), 0xFFFF - Code(b))
  {
    hide Sum, Words, Code, Residue, OnesAdd, Rfc1071;
    WithinBound(a);
    WithinBound(b);
    WithinBound(a + b);
    WordsAppend(a, b);
    SumAppend(Words(a), Words(b));
    ResidueOfSum(Sum(Words(a)), Sum(Words(b)));
  }

  lemma ResidueOfSum(s: nat, t: nat)
    ensures Residue(s + t) == OnesAdd(Residue(s), Residue(t))
  {
    if s > 0 && t > 0 {
      var q := (s - 1) / 0xFFFF + (t - 1) / 0xFFFF;
      assert s + t == Residue(s) + Residue(t) + 0xFFFF * q;
      ResidueShift(s + t, Residue(s) + Residue(t), q);
    }
  }

  /** A word of section 1 of RFC 1071: big-endian, an odd tail padded with a zero byte. */
  function BigEndianWordAt(b: seq<Byte>, i: nat): Word
    requires 2 * i < |b|
  {
    Pair(if 2 * i + 1 < |b| then b[2 * i + 1] else 0, b[2 * i])
  }

  function BigEndianWords(b: seq<Byte>): (ws: seq<Word>) {
    seq((|b| + 1) / 2, i requires 0 <= i < (|b| + 1) / 2 => BigEndianWordAt(b, i))
  }

  function Swap(w: Word): Word {
    w / 0x100 + w % 0x100 * 0x100
  }

  lemma {:induction false} SumOfSwapped(ws: seq<Word>, vs: seq<Word>) returns (q: nat)
    requires |ws| == |vs| && forall i | 0 <= i < |ws| :: vs[i] == Swap(ws[i])
    ensures 0x100 * Sum(ws) == Sum(vs) + 0xFFFF * q
    ensures Sum(ws) == 0 <==> Sum(vs) == 0
  {
    if ws == [] {
      q := 0;
    } else {
      q := SumOfSwapped(ws[1..], vs[1..]);
      q := q + ws[0] / 0x100;
    }
  }

  /** 0x100 * s, t and the swap of s's residue all agree modulo 0xFFFF. */
  lemma SwapResidue(s: nat, t: nat, q: nat)
    requires s > 0 && t > 0 && 0x100 * s == t + 0xFFFF * q
    ensures Swap(Residue(s)) == Residue(t)
  {
    var x: int := Residue(s);
    ResidueShift(0x100 * s, t, q);
    ResidueShift(0x100 * s, 0x100 * x, 0x100 * ((s - 1) / 0xFFFF));
    ResidueShift(0x100 * x, Swap(x), x / 0x100);
  }

  lemma SwapComplement(x: Word)
    ensures Swap(0xFFFF - x) == 0xFFFF - Swap(x)
  {
  }

  lemma SwapPair(lo: Byte, hi: Byte)
    ensures Swap(Pair(lo, hi)) == Pair(hi, lo)
  {
    var q: int, r: int := hi, lo;
    assert (0x100 * q + r) / 0x100 == q && (0x100 * q + r) % 0x100 == r;
  }

  lemma {:induction false} WordsSwapped(b: seq<Byte>)
    ensures |BigEndianWords(b)| == |Words(b)|
    ensures forall i | 0 <= i < |Words(b)| :: BigEndianWords(b)[i] == Swap(Words(b)[i])
  {
    forall i | 0 <= i < |Words(b)|
      ensures BigEndianWordAt(b, i) == Swap(WordAt(b, i))
    {
      SwapPair(b[2 * i], if 2 * i + 1 < |b| then b[2 * i + 1] else 0);
    }
  }

  /** Section 2 (B): summing swapped words gives the swapped sum, odd tail included. */
  lemma {:induction false} ByteOrderDoesNotMatter(b: seq<Byte>)
    requires |b| <= MAX_LEN
    ensures Swap(Code(b)) == 0xFFFF - FoldAll(Sum(BigEndianWords(b)))
  {
    WithinBound(b);
    WordsSwapped(b);
    var q := SumOfSwapped(Words(b), BigEndianWords(b));
    var s, t := Sum(Words(b)), Sum(BigEndianWords(b));
    FoldAllIsResidue(t);
    SwapComplement(Residue(s));
    if s > 0 {
      SwapResidue(s, t, q);
    }
  }

  // ---------------------------------------------------------------------------------------------
  // What the checksum detects
  // ---------------------------------------------------------------------------------------------

  lemma SumUpdate(ws: seq<Word>, k: nat, w: Word)
    requires k < |ws|
    ensures Sum(ws[k := w]) == Sum(ws) - ws[k] + w
  {
    if k > 0 {
      assert ws[k := w][1..] == ws[1..][k - 1 := w];
      SumUpdate(ws[1..], k - 1, w);
    } else {
      assert ws[0 := w][1..] == ws[1..];
    }
  }

  /** The buffer with its k-th whole word, an aligned 16-bit field, set to w. */
  function PutWord(b: seq<Byte>, k: nat, w: Word): (c: seq<Byte>)
    requires 2 * k + 1 < |b|
  {
    b[2 * k := w % 0x100][2 * k + 1 := w / 0x100]
  }

  lemma {:induction false} WordsPutWord(b: seq<Byte>, k: nat, w: Word)
    requires 2 * k + 1 < |b|
    ensures Words(PutWord(b, k, w)) == Words(b)[k := w]
  {
  }

  /** A sender that stores the checksum in a zeroed aligned field makes the whole buffer sum to zero. */
  lemma {:induction false} FilledFieldVerifies(b: seq<Byte>, k: nat)
    requires |b| <= MAX_LEN && 2 * k + 1 < |b|
    requires b[2 * k] == 0 && b[2 * k + 1] == 0
    ensures Code(PutWord(b, k, Code(b))) == 0
  {
    var c := Code(b);
    WithinBound(b);
    WithinBound(PutWord(b, k, c));
    WordsPutWord(b, k, c);
    assert Words(b)[k] == WordAt(b, k) == 0;
    SumUpdate(Words(b), k, c);
    ComplementFills(Sum(Words(b)));
  }

  /** A receiver sees zero for exactly one field value, or two when the checksum itself is zero. */
  lemma {:induction false} AcceptedFields(b: seq<Byte>, k: nat, f: Word)
    requires |b| <= MAX_LEN && 2 * k + 1 < |b|
    requires b[2 * k] == 0 && b[2 * k + 1] == 0
    ensures Code(PutWord(b, k, f)) == 0 <==> f == Code(b) || (Code(b) == 0 && f == 0xFFFF)
  {
    WithinBound(b);
    WithinBound(PutWord(b, k, f));
    WordsPutWord(b, k, f);
    assert Words(b)[k] == WordAt(b, k) == 0;
    SumUpdate(Words(b), k, f);
    FieldAccepted(Sum(Words(b)), f);
  }

  lemma FieldAccepted(s: nat, f: Word)
    ensures Residue(s + f) == 0xFFFF <==> f == 0xFFFF - Residue(s) || (Residue(s) == 0xFFFF && f == 0xFFFF)
  {
    hide Residue;
    ComplementFills(s);
    SameResidue(s, f, 0xFFFF - Residue(s));
    ZeroAndOnes(f, 0xFFFF - Residue(s));
    NoSum(s);
  }

  lemma ZeroAndOnes(x: Word, y: Word)
    ensures {x, y} == {0, 0xFFFF} <==> (x == 0 && y == 0xFFFF) || (x == 0xFFFF && y == 0)
  {
    assert {x, y} == {0, 0xFFFF} ==> 0 in {x, y} && 0xFFFF in {x, y};
  }

  lemma NoSum(s: nat)
    ensures Residue(s) == 0 <==> s == 0
  {
  }

  lemma ComplementFills(s: nat)
    ensures Residue(s + (0xFFFF - Residue(s))) == 0xFFFF
  {
  }

  /** Exactly which change of one word goes unnoticed; the odd tail byte is a word too. */
  lemma {:induction false} SingleWordChange(a: seq<Byte>, b: seq<Byte>, k: nat)
    requires |a| <= MAX_LEN && |b| == |a| && k < |Words(a)|
    requires Words(b) == Words(a)[k := Words(b)[k]]
    ensures
      var w, w' := Words(a)[k], Words(b)[k];
      Code(a) == Code(b) <==>
      w == w' || ({w, w'} == {0, 0xFFFF} && exists j | 0 <= j < |Words(a)| :: j != k && Words(a)[j] != 0)
  {
    var w, w' := Words(a)[k], Words(b)[k];
    WithinBound(a);
    WithinBound(b);
    SumUpdate(Words(a), k, w');
    SumUpdate(Words(a), k, 0);
    var rest := Sum(Words(a)) - w;
    assert rest == Sum(Words(a)[k := 0]);
    OthersAreZero(Words(a)[k := 0]);
    assert rest != 0 <==> exists j | 0 <= j < |Words(a)| :: j != k && Words(a)[j] != 0 by {
      if rest != 0 {
        var j :| 0 <= j < |Words(a)| && Words(a)[k := 0][j] != 0;
        assert j != k && Words(a)[j] != 0;
      }
      if j :| 0 <= j < |Words(a)| && j != k && Words(a)[j] != 0 {
        assert Words(a)[k := 0][j] != 0;
      }
    }
    SameResidue(rest, w, w');
  }

  lemma OthersAreZero(ws: seq<Word>)
    ensures Sum(ws) == 0 <==> forall j | 0 <= j < |ws| :: ws[j] == 0
  {
    if ws != [] {
      OthersAreZero(ws[1..]);
      if forall j | 0 <= j < |ws| :: ws[j] == 0 {
        assert forall j | 0 <= j < |ws[1..]| :: ws[1..][j] == ws[j + 1];
      }
      if Sum(ws) == 0 {
        assert forall j | 0 < j < |ws| :: ws[j] == ws[1..][j - 1];
      }
    }
  }

  lemma SameResidue(rest: nat, w: Word, w': Word)
    ensures Residue(rest + w) == Residue(rest + w') <==> w == w' || ({w, w'} == {0, 0xFFFF} && rest != 0)
  {
  }
}
