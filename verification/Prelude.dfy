/** Bytes, results, and the two sequence operations the whole container is made of:
    gluing pieces together (`Flat`) and cutting a sequence into pieces (`Chunks`). */
module Prelude {

  type byte = x: int | 0 <= x < 256
  type Bytes = seq<byte>

  const U16: nat := 0x1_0000
  const U32: nat := 0x1_0000_0000
  const U64: nat := 0x1_0000_0000_0000_0000

  type u16 = x: int | 0 <= x < 0x1_0000
  type u32 = x: int | 0 <= x < 0x1_0000_0000
  type u64 = x: int | 0 <= x < 0x1_0000_0000_0000_0000

  datatype Option<+T> = None | Some(value: T)

  datatype Error =
    | UnexpectedEof
    | InvalidFormat
    | InvalidGzipMagic
    | Inflate
    | CrcMismatch
    | SeekBeyondEnd
    /** No error value: the call panics. */
    | Panic

  datatype Result<+T> = Ok(value: T) | Err(error: Error)

  function Min(a: int, b: int): int {
    if a <= b then a else b
  }

  function Max(a: int, b: int): int {
    if a >= b then a else b
  }

  // --- Concatenation of pieces ---

  function Flat<T>(pieces: seq<seq<T>>): seq<T> {
    if pieces == [] then [] else pieces[0] + Flat(pieces[1..])
  }

  /** Where piece k starts inside `Flat(pieces)`; `Offset(pieces, |pieces|)` is the total length. */
  function Offset<T>(pieces: seq<seq<T>>, k: nat): nat
    requires k <= |pieces|
  {
    |Flat(pieces[..k])|
  }

  lemma SeqAssoc<T>(a: seq<T>, b: seq<T>, c: seq<T>)
    ensures a + b + c == a + (b + c)
  {
  }

  lemma FlatCons<T>(first: seq<T>, rest: seq<seq<T>>)
    ensures Flat([first] + rest) == first + Flat(rest)
  {
    assert ([first] + rest)[1..] == rest;
  }

  lemma {:induction false} FlatConcat<T>(a: seq<seq<T>>, b: seq<seq<T>>)
    ensures Flat(a + b) == Flat(a) + Flat(b)
  {
    if a == [] {
      assert a + b == b;
    } else {
      assert (a + b)[1..] == a[1..] + b;
      FlatConcat(a[1..], b);
    }
  }

  lemma FlatSnoc<T>(a: seq<seq<T>>, x: seq<T>)
    ensures Flat(a + [x]) == Flat(a) + x
  {
    FlatConcat(a, [x]);
  }

  /** The whole is what lies before piece k, then piece k, then the rest. */
  lemma FlatSplit<T>(pieces: seq<seq<T>>, k: nat)
    requires k < |pieces|
    ensures Flat(pieces) == Flat(pieces[..k]) + pieces[k] + Flat(pieces[k + 1..])
    ensures Offset(pieces, k + 1) == Offset(pieces, k) + |pieces[k]|
  {
    assert pieces == pieces[..k] + pieces[k..];
    FlatConcat(pieces[..k], pieces[k..]);
    assert pieces[..k + 1] == pieces[..k] + [pieces[k]];
    FlatSnoc(pieces[..k], pieces[k]);
  }

  lemma FlatAt<T>(pieces: seq<seq<T>>, k: nat)
    requires k <= |pieces|
    ensures Flat(pieces) == Flat(pieces[..k]) + Flat(pieces[k..])
    ensures Offset(pieces, k) <= |Flat(pieces)|
    ensures Flat(pieces)[Offset(pieces, k)..] == Flat(pieces[k..])
  {
    assert pieces == pieces[..k] + pieces[k..];
    FlatConcat(pieces[..k], pieces[k..]);
  }

  lemma FlatAll<T>(pieces: seq<seq<T>>)
    ensures Offset(pieces, |pieces|) == |Flat(pieces)|
    ensures Offset(pieces, 0) == 0
  {
    assert pieces[..|pieces|] == pieces;
  }

  lemma {:induction false} OffsetMonotone<T>(pieces: seq<seq<T>>, i: nat, j: nat)
    requires i <= j <= |pieces|
    ensures Offset(pieces, i) <= Offset(pieces, j)
    ensures (forall k :: i <= k < j ==> |pieces[k]| >= 1) && i < j ==> Offset(pieces, i) < Offset(pieces, j)
    decreases j
  {
    if i < j {
      FlatSplit(pieces, j - 1);
      OffsetMonotone(pieces, i, j - 1);
    }
  }

  /** Consecutive pieces i..j are the slice between their offsets. */
  lemma FlatSlice<T>(pieces: seq<seq<T>>, i: nat, j: nat)
    requires i <= j <= |pieces|
    ensures Offset(pieces, i) <= Offset(pieces, j) <= |Flat(pieces)|
    ensures Flat(pieces[i..j]) == Flat(pieces)[Offset(pieces, i)..Offset(pieces, j)]
  {
    OffsetMonotone(pieces, i, j);
    FlatAt(pieces, j);
    var head := pieces[..j];
    FlatAt(head, i);
    assert head[..i] == pieces[..i];
    assert head[i..] == pieces[i..j];
    assert Flat(pieces) == Flat(head) + Flat(pieces[j..]);
    assert Flat(head) == Flat(pieces[..i]) + Flat(pieces[i..j]);
  }

  /** A window of a window. */
  lemma Window<T>(s: seq<T>, pos: nat, n: nat, a: nat, k: nat)
    requires pos + n <= |s| && a + k <= n
    ensures s[pos..pos + n][a..a + k] == s[pos + a..][..k]
  {
    var w, v := s[pos..pos + n], s[pos + a..];
    assert forall j :: 0 <= j < k ==> w[a..a + k][j] == s[pos + a + j] == v[..k][j];
    assert w[a..a + k] == v[..k];
  }

  lemma Adjacent<T>(s: seq<T>, a: nat, b: nat, c: nat)
    requires a <= b <= c <= |s|
    ensures s[a..b] + s[b..c] == s[a..c]
  {
    var w := s[a..b] + s[b..c];
    assert forall j :: 0 <= j < c - a ==> w[j] == s[a + j] == s[a..c][j];
  }

  lemma DropDrop<T>(s: seq<T>, a: nat, b: nat)
    requires a + b <= |s|
    ensures s[a..][b..] == s[a + b..]
  {
    var v, w := s[a..], s[a + b..];
    assert forall j :: 0 <= j < |w| ==> v[b..][j] == s[a + b + j] == w[j];
  }

  lemma DropSlice<T>(s: seq<T>, a: nat, b: nat, c: nat)
    requires b <= c && a + c <= |s|
    ensures s[a..][b..c] == s[a + b..a + c]
  {
    var v, w := s[a..], s[a + b..a + c];
    assert forall j :: 0 <= j < |w| ==> v[b..c][j] == s[a + b + j] == w[j];
  }

  /** A window of a prefix. */
  lemma PrefixWindow<T>(s: seq<T>, n: nat, a: nat, k: nat)
    requires a + k <= n <= |s|
    ensures s[..n][a..][..k] == s[a..][..k]
  {
    var w, v := s[..n][a..], s[a..];
    assert forall j :: 0 <= j < k ==> w[..k][j] == s[a + j] == v[..k][j];
    assert w[..k] == v[..k];
  }

  // --- Cutting into pieces of n ---

  /** `s` cut into pieces of `n`; only the last piece may be shorter, none is empty. */
  function Chunks<T>(n: nat, s: seq<T>): (pieces: seq<seq<T>>)
    requires n >= 1
    ensures Flat(pieces) == s
    ensures forall k :: 0 <= k < |pieces| ==> 1 <= |pieces[k]| <= n
    ensures forall k :: 0 <= k < |pieces| - 1 ==> |pieces[k]| == n
    decreases |s|
  {
    if s == [] then []
    else if |s| <= n then [s]
    else [s[..n]] + Chunks(n, s[n..])
  }

  ghost predicate Even<T>(n: nat, pieces: seq<seq<T>>) {
    forall k :: 0 <= k < |pieces| ==> |pieces[k]| == n
  }

  lemma {:induction false} EvenLength<T>(n: nat, pieces: seq<seq<T>>)
    requires Even(n, pieces)
    ensures |Flat(pieces)| == n * |pieces|
  {
    if pieces != [] {
      assert forall k :: 0 <= k < |pieces[1..]| ==> pieces[1..][k] == pieces[k + 1];
      EvenLength(n, pieces[1..]);
      assert |pieces| == 1 + |pieces[1..]|;
      assert n * |pieces| == n + n * |pieces[1..]|;
    }
  }

  lemma NoEmptyPiece<T>(pieces: seq<seq<T>>)
    requires forall k :: 0 <= k < |pieces| ==> |pieces[k]| >= 1
    ensures Flat(pieces) == [] ==> pieces == []
  {
  }

  lemma ChunksCons<T>(n: nat, first: seq<T>, s: seq<T>)
    requires n >= 1 && |first| == n && s != []
    ensures Chunks(n, first + s) == [first] + Chunks(n, s)
  {
    assert (first + s)[..n] == first && (first + s)[n..] == s;
  }

  lemma ChunksShort<T>(n: nat, last: seq<T>)
    requires n >= 1 && |last| <= n
    ensures Chunks(n, last) == if last == [] then [] else [last]
  {
  }

  /** The only way to cut a sequence with every piece but the last full and none empty. */
  lemma {:induction false} ChunksUnique<T>(n: nat, pieces: seq<seq<T>>, last: seq<T>)
    requires n >= 1 && Even(n, pieces) && |last| <= n
    ensures Chunks(n, Flat(pieces) + last) == if last == [] then pieces else pieces + [last]
  {
    hide Chunks;
    if pieces == [] {
      assert Flat(pieces) + last == last;
      ChunksShort(n, last);
      assert pieces + [last] == [last];
    } else {
      hide Flat;
      var first, rest := pieces[0], pieces[1..];
      var s := Flat(rest) + last;
      assert pieces == [first] + rest;
      FlatCons(first, rest);
      SeqAssoc(first, Flat(rest), last);
      assert forall k :: 0 <= k < |rest| ==> rest[k] == pieces[k + 1];
      ChunksUnique(n, rest, last);
      if s == [] {
        NoEmptyPiece(rest);
        assert rest == [] && last == [] && first + s == first;
        ChunksShort(n, first);
      } else {
        ChunksCons(n, first, s);
        SeqAssoc([first], rest, [last]);
      }
    }
  }

  /** Cutting a sequence whose length is a multiple of `n` leaves only full pieces. */
  lemma {:induction false} ChunksEven<T>(n: nat, s: seq<T>)
    requires n >= 1 && |s| % n == 0
    ensures Even(n, Chunks(n, s))
    decreases |s|
  {
    if |s| > n {
      assert |s[n..]| % n == 0 by { ModSub(|s|, n); }
      ChunksEven(n, s[n..]);
    } else if s != [] {
      assert |s| == n by { if |s| < n { SmallMod(|s|, n); } }
    }
  }

  /** One more (possibly short) piece at an even boundary is one more chunk. */
  lemma ChunksSnoc<T>(n: nat, s: seq<T>, last: seq<T>)
    requires n >= 1 && |s| % n == 0 && 1 <= |last| <= n
    ensures Chunks(n, s + last) == Chunks(n, s) + [last]
  {
    ChunksEven(n, s);
    ChunksUnique(n, Chunks(n, s), last);
  }

  /** The first pieces are the chunks of what they hold: only the very last piece may be short. */
  lemma ChunksPrefix<T>(n: nat, blocked: seq<T>, flushed: seq<seq<T>>, ps: seq<seq<T>>)
    requires n >= 1 && Chunks(n, blocked) == flushed + ps
    ensures Chunks(n, Flat(flushed)) == flushed
  {
    if ps == [] {
      assert flushed + ps == flushed;
    } else {
      hide Chunks, Flat;
      var all := Chunks(n, blocked);
      assert forall k :: 0 <= k < |flushed| ==> flushed[k] == all[k];
      ChunksUnique(n, flushed, []);
      assert Flat(flushed) + [] == Flat(flushed);
    }
  }

  lemma {:induction false} ChunksCount<T>(n: nat, s: seq<T>)
    requires n >= 1
    ensures |Chunks(n, s)| == (|s| + n - 1) / n
    decreases |s|
  {
    if s == [] {
      DivUnique(n - 1, n, 0);
    } else if |s| <= n {
      DivUnique(|s| + n - 1, n, 1);
    } else {
      ChunksCount(n, s[n..]);
      DivStep(|s| - n + n - 1, n);
    }
  }

  /** Piece k starts at k * n: no piece before it is short. */
  lemma ChunksOffset<T>(n: nat, s: seq<T>, k: nat)
    requires n >= 1 && k <= |Chunks(n, s)|
    ensures Offset(Chunks(n, s), k) == Min(k * n, |s|)
    ensures k < |Chunks(n, s)| ==> k * n < |s|
  {
    var pieces := Chunks(n, s);
    if k < |pieces| {
      FullPieces(n, pieces, k);
      FlatSplit(pieces, k);
      FlatAt(pieces, k + 1);
    } else {
      FlatAll(pieces);
      if pieces != [] {
        FullPieces(n, pieces, k - 1);
        FlatSplit(pieces, k - 1);
        MulLess(k - 1, k, n);
      }
    }
  }

  lemma FullPieces<T>(n: nat, pieces: seq<seq<T>>, k: nat)
    requires k <= |pieces|
    requires forall j :: 0 <= j < k ==> |pieces[j]| == n
    ensures Offset(pieces, k) == k * n
  {
    assert Even(n, pieces[..k]);
    EvenLength(n, pieces[..k]);
  }

  // --- Division by a variable ---

  lemma {:induction false} MulLess(a: nat, b: nat, n: nat)
    ensures a < b ==> a * n + n <= b * n
  {
    if a < b {
      MulLess(a, b - 1, n);
      assert b * n == (b - 1) * n + n;
    }
  }

  lemma DivUnique(x: nat, n: nat, q: nat)
    requires n >= 1 && q * n <= x < q * n + n
    ensures x / n == q && x % n == x - q * n
  {
    var d := x / n;
    assert x == d * n + x % n;
    MulLess(d, q, n);
    MulLess(q, d, n);
  }

  lemma DivStep(x: nat, n: nat)
    requires n >= 1
    ensures (x + n) / n == x / n + 1 && (x + n) % n == x % n
  {
    var q := x / n;
    assert x == q * n + x % n;
    assert (q + 1) * n == q * n + n;
    DivUnique(x + n, n, q + 1);
  }

  lemma ModSub(x: nat, n: nat)
    requires n >= 1 && x >= n
    ensures (x - n) % n == x % n
  {
    DivStep(x - n, n);
  }

  lemma SmallMod(x: nat, n: nat)
    requires x < n
    ensures x % n == x && x / n == 0
  {
    DivUnique(x, n, 0);
  }
}
