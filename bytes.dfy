/**
 * Bytes and the fixed-width unsigned integers of the DAT format, and the
 * big-endian accessors shared by both codecs: the `read_u32`, `write_u32`,
 * `read_u16`, `write_u16` and `push_u32` helpers of the Rust codec and the
 * `READ_U16`, `READ_U32`, `WRITE_U16`, `WRITE_U32` macros of the C header.
 */
module Bytes {

  type byte = x: int | 0 <= x < 0x100
  type u16 = x: int | 0 <= x < 0x1_0000
  type u32 = x: int | 0 <= x < 0x1_0000_0000

  const U32_LIMIT: nat := 0x1_0000_0000

  /** An `as u32` cast (or a C assignment to a `uint32_t`): truncation modulo 2^32. */
  function Trunc32(n: int): (r: u32)
    ensures 0 <= n < U32_LIMIT ==> r == n
  {
    n % U32_LIMIT
  }

  /** `n` zero bytes. */
  function Zeros(n: nat): (r: seq<byte>)
    ensures |r| == n
    ensures forall i :: 0 <= i < n ==> r[i] == 0
  {
    seq(n, _ => 0)
  }

  /** The four bytes of `n`, most significant first (`u32::to_be_bytes`). */
  function BE32(n: u32): (r: seq<byte>)
    ensures |r| == 4
  {
    [n / 0x100_0000, (n / 0x1_0000) % 0x100, (n / 0x100) % 0x100, n % 0x100]
  }

  /** The two bytes of `n`, most significant first (`u16::to_be_bytes`). */
  function BE16(n: u16): (r: seq<byte>)
    ensures |r| == 2
  {
    [n / 0x100, n % 0x100]
  }

  /** The big-endian u32 stored at `at`. */
  function ReadU32(s: seq<byte>, at: nat): u32
    requires at + 4 <= |s|
  {
    (s[at] as int) * 0x100_0000 + (s[at + 1] as int) * 0x1_0000 + (s[at + 2] as int) * 0x100 + s[at + 3] as int
  }

  /** The big-endian u16 stored at `at`. */
  function ReadU16(s: seq<byte>, at: nat): u16
    requires at + 2 <= |s|
  {
    (s[at] as int) * 0x100 + s[at + 1] as int
  }

  /** `s` with the big-endian bytes of `n` stored at `at`. */
  function WriteU32(s: seq<byte>, at: nat, n: u32): (r: seq<byte>)
    requires at + 4 <= |s|
    ensures |r| == |s|
  {
    s[..at] + BE32(n) + s[at + 4..]
  }

  /** `s` with the big-endian bytes of `n` stored at `at`. */
  function WriteU16(s: seq<byte>, at: nat, n: u16): (r: seq<byte>)
    requires at + 2 <= |s|
    ensures |r| == |s|
  {
    s[..at] + BE16(n) + s[at + 2..]
  }

  /** Decoding the four bytes of `n` gives `n` back. */
  lemma BE32RoundTrip(n: u32)
    ensures ReadU32(BE32(n), 0) == n
  {
    var d, q1 := n % 0x100, n / 0x100;
    var c, q2 := q1 % 0x100, q1 / 0x100;
    var b, a := q2 % 0x100, q2 / 0x100;
    assert n == q1 * 0x100 + d && q1 == q2 * 0x100 + c && q2 == a * 0x100 + b;
    DivMod(q2, c * 0x100 + d, 0x1_0000);
    DivMod(a, b * 0x1_0000 + c * 0x100 + d, 0x100_0000);
  }

  /** Encoding the u32 stored at `at` gives back exactly the four stored bytes. */
  lemma ReadU32Bytes(s: seq<byte>, at: nat)
    requires at + 4 <= |s|
    ensures BE32(ReadU32(s, at)) == s[at..at + 4]
  {
    var a, b, c, d := s[at] as int, s[at + 1] as int, s[at + 2] as int, s[at + 3] as int;
    var n := ReadU32(s, at);
    DivMod(a, b * 0x1_0000 + c * 0x100 + d, 0x100_0000);
    DivMod(a * 0x100 + b, c * 0x100 + d, 0x1_0000);
    DivMod(a * 0x100 + b, c, 0x100);
    DivMod(a * 0x1_0000 + b * 0x100 + c, d, 0x100);
    DivMod(a, b, 0x100);
    DivMod(a * 0x100 + b, c, 0x100);
  }

  /** Division by a byte-position weight recovers the quotient and remainder of `q * k + r`. */
  lemma DivMod(q: int, r: int, k: int)
    requires k == 0x100 || k == 0x1_0000 || k == 0x100_0000
    requires 0 <= r < k
    ensures (q * k + r) / k == q && (q * k + r) % k == r
  {
  }

  /** Decoding the two bytes of `n` gives `n` back. */
  lemma BE16RoundTrip(n: u16)
    ensures ReadU16(BE16(n), 0) == n
  {
  }

  /** Encoding the u16 stored at `at` gives back exactly the two stored bytes. */
  lemma ReadU16Bytes(s: seq<byte>, at: nat)
    requires at + 2 <= |s|
    ensures BE16(ReadU16(s, at)) == s[at..at + 2]
  {
  }

  /** Reading at `k` sees only the bytes `k .. k+4`. */
  lemma ReadU32Slice(s: seq<byte>, at: nat, t: seq<byte>, k: nat)
    requires k + 4 <= |t| && at + k + 4 <= |s|
    requires s[at + k..at + k + 4] == t[k..k + 4]
    ensures ReadU32(s, at + k) == ReadU32(t, k)
  {
    assert s[at + k] == t[k] && s[at + k + 1] == t[k + 1];
    assert s[at + k + 2] == t[k + 2] && s[at + k + 3] == t[k + 3];
  }

  /** `WRITE_U32` followed by `READ_U32` at the same place yields the value written. */
  lemma WriteThenReadU32(s: seq<byte>, at: nat, n: u32)
    requires at + 4 <= |s|
    ensures ReadU32(WriteU32(s, at, n), at) == n
  {
    var r := WriteU32(s, at, n);
    assert r[at..at + 4] == BE32(n);
    BE32RoundTrip(n);
    ReadU32Slice(r, at, BE32(n), 0);
  }

  /** A write leaves every byte outside its four bytes unchanged. */
  lemma WriteU32Elsewhere(s: seq<byte>, at: nat, n: u32, i: nat)
    requires at + 4 <= |s| && i < |s|
    requires i < at || at + 4 <= i
    ensures WriteU32(s, at, n)[i] == s[i]
  {
  }

  /** A `WRITE_U32` leaves a u32 stored elsewhere unchanged. */
  lemma WriteU32Apart(s: seq<byte>, at: nat, n: u32, p: nat)
    requires at + 4 <= |s| && p + 4 <= |s|
    requires p + 4 <= at || at + 4 <= p
    ensures ReadU32(WriteU32(s, at, n), p) == ReadU32(s, p)
  {
    WriteU32Elsewhere(s, at, n, p);
    WriteU32Elsewhere(s, at, n, p + 1);
    WriteU32Elsewhere(s, at, n, p + 2);
    WriteU32Elsewhere(s, at, n, p + 3);
  }

  /** `WRITE_U16` followed by `READ_U16` at the same place yields the value written. */
  lemma WriteThenReadU16(s: seq<byte>, at: nat, n: u16)
    requires at + 2 <= |s|
    ensures ReadU16(WriteU16(s, at, n), at) == n
  {
    var r := WriteU16(s, at, n);
    assert r[at] == n / 0x100 && r[at + 1] == n % 0x100;
  }

  /** Writing the value that is already stored changes nothing. */
  lemma WriteStoredU32(s: seq<byte>, at: nat)
    requires at + 4 <= |s|
    ensures WriteU32(s, at, ReadU32(s, at)) == s
  {
    ReadU32Bytes(s, at);
    assert s == s[..at] + s[at..at + 4] + s[at + 4..];
  }

  /** Every element is representable as a u32. */
  predicate AllU32(t: seq<nat>)
  {
    forall i :: 0 <= i < |t| ==> t[i] < U32_LIMIT
  }

  /** `push_u32` of each element in turn: the big-endian words of `t`, back to back. */
  function Words(t: seq<nat>): (r: seq<byte>)
    requires AllU32(t)
    ensures |r| == 4 * |t|
  {
    if t == [] then [] else BE32(t[0]) + Words(t[1..])
  }

  /** The `n` big-endian words stored back to back from `at`. */
  function ReadWords(s: seq<byte>, at: nat, n: nat): (r: seq<u32>)
    requires at + 4 * n <= |s|
    ensures |r| == n
    ensures forall i :: 0 <= i < n ==> r[i] == ReadU32(s, at + 4 * i)
  {
    seq(n, i requires 0 <= i < n => ReadU32(s, at + 4 * i))
  }

  /** Writing two lists of words is writing their concatenation. */
  lemma {:induction false} WordsAppend(a: seq<nat>, b: seq<nat>)
    requires AllU32(a) && AllU32(b)
    ensures AllU32(a + b) && Words(a + b) == Words(a) + Words(b)
  {
    assert AllU32(a + b) by {
      forall i | 0 <= i < |a + b|
        ensures (a + b)[i] < U32_LIMIT
      {
        if i < |a| { assert (a + b)[i] == a[i]; } else { assert (a + b)[i] == b[i - |a|]; }
      }
    }
    if a != [] {
      assert (a + b)[0] == a[0];
      assert (a + b)[1..] == a[1..] + b;
      WordsAppend(a[1..], b);
      calc {
        Words(a + b);
        BE32(a[0]) + Words(a[1..] + b);
        BE32(a[0]) + (Words(a[1..]) + Words(b));
        (BE32(a[0]) + Words(a[1..])) + Words(b);
      }
    } else {
      assert a + b == b;
    }
  }

  /** Pushing one more word onto a written list. */
  lemma PushWord(acc: seq<nat>, x: nat)
    requires AllU32(acc) && x < U32_LIMIT
    ensures AllU32(acc + [x]) && Words(acc + [x]) == Words(acc) + BE32(x)
  {
    assert AllU32([x]);
    assert [x][1..] == [];
    WordsAppend(acc, [x]);
  }

  /** Regrouping a concatenation of three pieces. */
  lemma Assoc(a: seq<byte>, b: seq<byte>, c: seq<byte>, s: seq<byte>)
    requires s == a + b + c
    ensures s == a + (b + c)
  {
  }

  /** A read past a prefix `x` reads the rest `y` of the bytes. */
  lemma ReadU32Shift(x: seq<byte>, y: seq<byte>, s: seq<byte>, at: nat, k: nat)
    requires s == x + y && at == |x| + k && k + 4 <= |y|
    ensures at + 4 <= |s| && ReadU32(s, at) == ReadU32(y, k)
  {
    assert s[at] == y[k] && s[at + 1] == y[k + 1];
    assert s[at + 2] == y[k + 2] && s[at + 3] == y[k + 3];
  }

  /** A read at the start of `s` sees only its first four bytes. */
  lemma ReadU32Front(x: seq<byte>, y: seq<byte>, s: seq<byte>)
    requires s == x + y && 4 <= |x|
    ensures ReadU32(s, 0) == ReadU32(x, 0)
  {
    assert s[0] == x[0] && s[1] == x[1] && s[2] == x[2] && s[3] == x[3];
  }

  /** The `i`-th word of a list written at the start of `s` is `t[i]`. */
  lemma {:induction false} ReadLeadingWord(t: seq<nat>, post: seq<byte>, s: seq<byte>, i: nat)
    requires AllU32(t) && s == Words(t) + post && i < |t|
    ensures 4 * i + 4 <= |s| && ReadU32(s, 4 * i) == t[i]
    decreases i
  {
    var rest := Words(t[1..]) + post;
    Assoc(BE32(t[0]), Words(t[1..]), post, s);
    if i == 0 {
      ReadU32Front(BE32(t[0]), rest, s);
      BE32RoundTrip(t[0]);
    } else {
      ReadLeadingWord(t[1..], post, rest, i - 1);
      ReadU32Shift(BE32(t[0]), rest, s, 4 * i, 4 * (i - 1));
    }
  }

  /** The `i`-th word of a written list, read back from any surrounding bytes, is `t[i]`. */
  lemma ReadWordAt(pre: seq<byte>, t: seq<nat>, post: seq<byte>, s: seq<byte>, at: nat, i: nat)
    requires AllU32(t) && s == pre + Words(t) + post
    requires at == |pre| + 4 * i && i < |t|
    ensures at + 4 <= |s| && ReadU32(s, at) == t[i]
  {
    Assoc(pre, Words(t), post, s);
    ReadLeadingWord(t, post, Words(t) + post, i);
    ReadU32Shift(pre, Words(t) + post, s, at, 4 * i);
  }

  /** Reading back a written list of words, from any surrounding bytes, gives the list. */
  lemma ReadWordsOf(pre: seq<byte>, t: seq<nat>, post: seq<byte>, s: seq<byte>, at: nat, n: nat)
    requires AllU32(t) && s == pre + Words(t) + post
    requires at == |pre| && n == |t|
    ensures at + 4 * n <= |s| && ReadWords(s, at, n) == t
  {
    forall i | 0 <= i < |t|
      ensures ReadWords(s, at, n)[i] == t[i]
    {
      ReadWordAt(pre, t, post, s, at + 4 * i, i);
    }
  }

  /** The middle piece of `a + b + c`, cut at its exact bounds. */
  lemma Middle(a: seq<byte>, b: seq<byte>, c: seq<byte>, s: seq<byte>, lo: nat, hi: nat)
    requires s == a + b + c && lo == |a| && hi == lo + |b|
    ensures hi <= |s| && s[lo..hi] == b
  {
  }

  /** The tail piece of `a + b`, cut at its exact bound. */
  lemma Tail(a: seq<byte>, b: seq<byte>, s: seq<byte>, lo: nat)
    requires s == a + b && lo == |a|
    ensures lo <= |s| && s[lo..] == b
  {
  }

  /** The tail piece of `a + b`, cut at its exact bounds. */
  lemma TailTo(a: seq<byte>, b: seq<byte>, s: seq<byte>, lo: nat, hi: nat)
    requires s == a + b && lo == |a| && hi == |s|
    ensures lo <= hi && s[lo..hi] == b
  {
  }

  /** Regroupings of a concatenation of six pieces. */
  lemma Regroup1(a: seq<byte>, b: seq<byte>, c: seq<byte>, d: seq<byte>, e: seq<byte>, f: seq<byte>, s: seq<byte>)
    requires s == a + b + c + d + e + f
    ensures s == a + (b + c + d + e + f)
  {
  }

  lemma Regroup2(a: seq<byte>, b: seq<byte>, c: seq<byte>, d: seq<byte>, e: seq<byte>, f: seq<byte>, s: seq<byte>)
    requires s == a + b + c + d + e + f
    ensures s == a + b + (c + d + e + f)
  {
  }

  lemma Regroup3(a: seq<byte>, b: seq<byte>, c: seq<byte>, d: seq<byte>, e: seq<byte>, f: seq<byte>, s: seq<byte>)
    requires s == a + b + c + d + e + f
    ensures s == (a + b) + c + (d + e + f)
  {
  }

  lemma Regroup4(a: seq<byte>, b: seq<byte>, c: seq<byte>, d: seq<byte>, e: seq<byte>, f: seq<byte>, s: seq<byte>)
    requires s == a + b + c + d + e + f
    ensures s == (a + b + c) + d + (e + f)
  {
  }

  /** The words read from `at` are the first one followed by those read from `at + 4`. */
  lemma ReadWordsTail(s: seq<byte>, at: nat, n: nat)
    requires at + 4 * n <= |s| && 0 < n
    ensures ReadWords(s, at, n)[0] == ReadU32(s, at)
    ensures ReadWords(s, at, n)[1..] == ReadWords(s, at + 4, n - 1)
  {
    assert at + 4 * 0 == at;
    forall i | 0 <= i < n - 1
      ensures ReadWords(s, at, n)[1..][i] == ReadWords(s, at + 4, n - 1)[i]
    {
      assert at + 4 * (i + 1) == at + 4 + 4 * i;
    }
  }

  /** A slice is its first four bytes followed by the rest. */
  lemma SliceFront(s: seq<byte>, lo: nat, hi: nat)
    requires lo + 4 <= hi <= |s|
    ensures s[lo..hi] == s[lo..lo + 4] + s[lo + 4..hi]
  {
  }

  /** Writing the words read from a region reproduces that region. */
  lemma {:induction false} WordsOfRead(s: seq<byte>, at: nat, n: nat, end: nat)
    requires end == at + 4 * n <= |s|
    ensures Words(ReadWords(s, at, n)) == s[at..end]
    decreases n
  {
    var w := ReadWords(s, at, n);
    if n > 0 {
      WordsOfRead(s, at + 4, n - 1, end);
      ReadWordsTail(s, at, n);
      ReadU32Bytes(s, at);
      SliceFront(s, at, end);
    }
  }

  /** A NUL byte occurs at or after `at`: a C string starts there. */
  predicate Terminated(s: seq<byte>, at: nat)
  {
    exists j :: at <= j < |s| && s[j] == 0
  }

  /** The index of the first NUL at or after `at`. */
  function NulFrom(s: seq<byte>, at: nat): (k: nat)
    requires Terminated(s, at)
    ensures at <= k < |s| && s[k] == 0
    ensures forall j :: at <= j < k ==> s[j] != 0
    decreases |s| - at
  {
    if s[at] == 0 then at else NulFrom(s, at + 1)
  }

  /** The C string starting at `at`: the bytes up to, and not including, the first NUL. */
  function CString(s: seq<byte>, at: nat): (r: seq<byte>)
    requires Terminated(s, at)
    ensures at + |r| < |s| && s[at..at + |r|] == r && s[at + |r|] == 0 && 0 !in r
  {
    s[at..NulFrom(s, at)]
  }
}
