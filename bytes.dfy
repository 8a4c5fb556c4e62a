/** C string semantics the index relies on: bytes, size_t words, NUL-terminated
    read names, strlen (as CStringAt), strcmp (as StrCmp) and the name arena
    that stores names back to back, each followed by its NUL. */
module Bytes {

  /** An unsigned char. */
  type byte = x: int | 0 <= x < 256

  /** 2^64: one past the largest size_t value on the 64-bit platforms the index
      format assumes. */
  const WORD_LIMIT: nat := 0x1_0000_0000_0000_0000

  /** A size_t value. */
  type Word = x: nat | x < 0x1_0000_0000_0000_0000

  /** True when no byte of s is the terminating NUL. */
  predicate NoNul(s: seq<byte>) {
    forall k :: 0 <= k < |s| ==> s[k] != 0
  }

  /** A read name: the bytes of a C string, without its terminator. */
  type Name = s: seq<byte> | NoNul(s)

  /** The C string that starts at position p of buf, read up to (not including)
      the first NUL, as strlen does. The result is the longest NUL-free run of
      buf starting at p; a run that reaches the end of buf stops there. */
  function CStringAt(buf: seq<byte>, p: nat): (s: Name)
    ensures p <= |buf| ==> p + |s| <= |buf| && buf[p..p + |s|] == s
    ensures p + |s| < |buf| ==> buf[p + |s|] == 0
    ensures |buf| <= p ==> s == []
    decreases |buf| - p
  {
    if |buf| <= p || buf[p] == 0 then []
    else
      var rest := CStringAt(buf, p + 1);
      assert forall k :: 0 < k < |[buf[p]] + rest| ==> ([buf[p]] + rest)[k] == rest[k - 1];
      [buf[p]] + rest
  }

  /** A name followed by a NUL is read back as exactly that name. */
  lemma {:induction false} CStringAtTerminated(buf: seq<byte>, p: nat, n: Name)
    requires p + |n| < |buf| && buf[p..p + |n|] == n && buf[p + |n|] == 0
    ensures CStringAt(buf, p) == n
  {
  }

  /** strcmp on two names: -1, 0 or 1 as a sorts before, equals or sorts after b.
      Bytes compare as unsigned char; a proper prefix sorts first, because its
      terminating NUL is smaller than any byte of a name (ISO C11 7.24.4.2). */
  function StrCmp(a: seq<byte>, b: seq<byte>): (c: int)
    ensures -1 <= c <= 1
    ensures (c == 0) == (a == b)
    decreases |a|
  {
    if a == [] then (if b == [] then 0 else -1)
    else if b == [] then 1
    else if a[0] < b[0] then -1
    else if a[0] > b[0] then 1
    else
      var c := StrCmp(a[1..], b[1..]);
      assert a == [a[0]] + a[1..] && b == [b[0]] + b[1..];
      c
  }

  /** Swapping the arguments of strcmp negates its result. */
  lemma {:induction false} StrCmpAntisymmetric(a: seq<byte>, b: seq<byte>)
    ensures StrCmp(b, a) == -StrCmp(a, b)
    decreases |a|
  {
    if a != [] && b != [] && a[0] == b[0] {
      StrCmpAntisymmetric(a[1..], b[1..]);
    }
  }

  /** The order strcmp induces is transitive. */
  lemma {:induction false} StrCmpTransitive(a: seq<byte>, b: seq<byte>, c: seq<byte>)
    requires StrCmp(a, b) <= 0 && StrCmp(b, c) <= 0
    ensures StrCmp(a, c) <= 0
    decreases |a|
  {
    if a != [] && b != [] && c != [] && a[0] == b[0] == c[0] {
      StrCmpTransitive(a[1..], b[1..], c[1..]);
    }
  }

  /** A chain that is strict at either link is strict. */
  lemma StrCmpStrict(a: seq<byte>, b: seq<byte>, c: seq<byte>)
    requires StrCmp(a, b) <= 0 && StrCmp(b, c) <= 0
    requires StrCmp(a, b) < 0 || StrCmp(b, c) < 0
    ensures StrCmp(a, c) < 0
  {
    StrCmpTransitive(a, b, c);
    if StrCmp(a, c) == 0 {
      StrCmpAntisymmetric(b, c);
      StrCmpAntisymmetric(a, b);
    }
  }

  /** Two names each sorting no later than the other are equal. */
  lemma StrCmpBothWays(a: seq<byte>, b: seq<byte>)
    requires StrCmp(a, b) <= 0 && StrCmp(b, a) <= 0
    ensures a == b
  {
    StrCmpAntisymmetric(a, b);
  }

  /** A name arena: every name followed by its NUL, back to back, in order. */
  function ArenaOf(names: seq<Name>): (a: seq<byte>)
    ensures names != [] ==> |a| > 0 && a[|a| - 1] == 0
  {
    if names == [] then []
    else ArenaOf(names[..|names| - 1]) + names[|names| - 1] + [0]
  }

  /** Concatenating name lists concatenates their arenas. */
  lemma {:induction false} ArenaOfAppend(xs: seq<Name>, ys: seq<Name>)
    ensures ArenaOf(xs + ys) == ArenaOf(xs) + ArenaOf(ys)
    decreases |ys|
  {
    if ys == [] {
      assert xs + ys == xs;
    } else {
      var init, last := ys[..|ys| - 1], ys[|ys| - 1];
      var all := xs + ys;
      assert all[..|all| - 1] == xs + init && all[|all| - 1] == last;
      assert ArenaOf(all) == ArenaOf(xs + init) + last + [0];
      ArenaOfAppend(xs, init);
      assert ArenaOf(ys) == ArenaOf(init) + last + [0];
      assert ArenaOf(all) == ArenaOf(xs) + (ArenaOf(init) + last + [0]);
    }
  }

  /** The offset at which name i starts in the arena of names. */
  function NameOffset(names: seq<Name>, i: nat): (offset: nat)
    requires i <= |names|
  {
    |ArenaOf(names[..i])|
  }

  /** A name placed between two byte runs, with its NUL, is read back whole. */
  lemma CStringAtSplice(a: seq<byte>, n: Name, b: seq<byte>)
    ensures CStringAt(a + n + [0] + b, |a|) == n
  {
    var buf := a + n + [0] + b;
    assert buf[|a|..|a| + |n|] == n;
    CStringAtTerminated(buf, |a|, n);
  }

  /** The arena of names splits around name i. */
  lemma ArenaSplit(names: seq<Name>, i: nat)
    requires i < |names|
    ensures ArenaOf(names) == ArenaOf(names[..i]) + names[i] + [0] + ArenaOf(names[i + 1..])
  {
    TakeDrop(names, i + 1);
    ArenaOfAppend(names[..i + 1], names[i + 1..]);
    ArenaOfPrefix(names, i);
  }

  /** A sequence is its first k elements followed by the rest. */
  lemma TakeDrop<T>(s: seq<T>, k: nat)
    requires k <= |s|
    ensures s[..k] + s[k..] == s
  {
  }

  /** The arena of the first i + 1 names extends that of the first i by name i
      and its NUL. */
  lemma ArenaOfPrefix(names: seq<Name>, i: nat)
    requires i < |names|
    ensures ArenaOf(names[..i + 1]) == ArenaOf(names[..i]) + names[i] + [0]
  {
    var upTo := names[..i + 1];
    assert upTo[..i] == names[..i] && upTo[i] == names[i];
  }

  /** Reading the arena at the offset of name i gives name i back. */
  lemma NameAt(names: seq<Name>, i: nat)
    requires i < |names|
    ensures NameOffset(names, i) + |names[i]| < |ArenaOf(names)|
    ensures CStringAt(ArenaOf(names), NameOffset(names, i)) == names[i]
  {
    ArenaSplit(names, i);
    CStringAtSplice(ArenaOf(names[..i]), names[i], ArenaOf(names[i + 1..]));
  }
}
