/** Readers with a position (pkg/mapfs/file.go): `openMapFile` over the bytes of a
    virtual file and `mapDir` over the entries of a directory. */
module OpenFile {
  import opened Bytes

  datatype ReadError = NoError | EOF | InvalidOffset

  function Min(a: int, b: int): int {
    if a < b then a else b
  }

  // Offsets are unbounded here. In `Seek` the machine sum can only overflow when it
  // exceeds the data length anyway, and both readings report the same error.
  class OpenMapFile {
    const data: seq<Byte>
    var offset: int

    ghost predicate Valid()
      reads this
    {
      0 <= offset <= |data|
    }

    constructor (data: seq<Byte>)
      ensures Valid() && this.data == data && offset == 0
    {
      this.data, offset := data, 0;
    }

    /** Fills the front of `b` with the next bytes; the rest of `b` stays. */
    method Read(b: array<Byte>) returns (n: nat, error: ReadError)
      modifies this, b
      ensures offset == old(offset) + n
      ensures error == if old(offset) >= |data| then EOF else if old(offset) < 0 then InvalidOffset else NoError
      ensures n == if error == NoError then Min(b.Length, |data| - old(offset)) else 0
      ensures error == NoError ==> offset <= |data| && b[..n] == data[old(offset)..offset]
      ensures b[n..] == old(b[n..])
    {
      if offset >= |data| {
        return 0, EOF;
      }
      if offset < 0 {
        return 0, InvalidOffset;
      }
      n := Copy(b, data[offset..]);
      offset := offset + n;
      error := NoError;
    }

    /** `whence` 1 counts from the position, 2 from the end, anything else from the start. */
    method Seek(delta: int, whence: int) returns (position: int, error: ReadError)
      requires Valid()
      modifies this
      ensures Valid()
      ensures var target := delta + (if whence == 1 then old(offset) else if whence == 2 then |data| else 0);
              if 0 <= target <= |data| then error == NoError && position == offset == target
              else error == InvalidOffset && position == 0 && offset == old(offset)
    {
      var target := delta;
      if whence == 1 {
        target := target + offset;
      } else if whence == 2 {
        target := target + |data|;
      }
      if target < 0 || target > |data| {
        return 0, InvalidOffset;
      }
      offset := target;
      return target, NoError;
    }

    /** Reads at a given place and never moves the position; fewer bytes than asked for mean EOF. */
    method ReadAt(b: array<Byte>, at: int) returns (n: nat, error: ReadError)
      modifies b
      ensures !(0 <= at <= |data|) ==> error == InvalidOffset && n == 0 && b[..] == old(b[..])
      ensures 0 <= at <= |data| ==>
                && n == Min(b.Length, |data| - at)
                && error == (if n < b.Length then EOF else NoError)
                && b[..n] == data[at..at + n] && b[n..] == old(b[n..])
    {
      if at < 0 || at > |data| {
        return 0, InvalidOffset;
      }
      n := Copy(b, data[at..]);
      error := if n < b.Length then EOF else NoError;
    }

    /** One read into a fresh buffer. */
    method ReadPiece(size: nat) returns (piece: seq<Byte>, eof: bool)
      requires Valid()
      modifies this
      ensures Valid() && offset == Min(old(offset) + size, |data|)
      ensures piece == data[old(offset)..offset] && (eof <==> old(offset) == |data|)
    {
      var b := new Byte[size];
      var n, error := Read(b);
      piece, eof := b[..n], error == EOF;
    }

    /** Any sequence of reads: the pieces returned are consecutive, and a call reports EOF
        exactly when the calls before it have returned all the data. */
    method ReadSizes(sizes: seq<nat>) returns (pieces: seq<seq<Byte>>, eofs: seq<bool>)
      requires Valid()
      modifies this
      ensures Valid() && pieces == Pieces(data, old(offset), sizes) && |eofs| == |sizes|
      ensures forall k :: 0 <= k < |sizes| ==> (eofs[k] <==> Exhausted(data, old(offset), sizes[..k]))
    {
      pieces, eofs := [], [];
      ghost var start := offset;
      assert sizes[..0] == [];
      for i := 0 to |sizes|
        invariant Valid() && offset == Min(start + Sum(sizes[..i]), |data|)
        invariant pieces == Pieces(data, start, sizes[..i]) && |eofs| == i
        invariant forall k :: 0 <= k < i ==> (eofs[k] <==> Exhausted(data, start, sizes[..k]))
      {
        NextPiece(data, start, sizes, i);
        var piece, eof := ReadPiece(sizes[i]);
        pieces, eofs := pieces + [piece], eofs + [eof];
      }
      assert sizes[..|sizes|] == sizes;
    }

    /** `io.ReadAll`: buffer after buffer until EOF gives exactly the rest of the data. */
    method ReadAll(size: nat) returns (all: seq<Byte>)
      requires Valid() && size > 0
      modifies this
      ensures Valid() && offset == |data| && all == data[old(offset)..]
    {
      all := [];
      var b := new Byte[size];
      var error := NoError;
      while error != EOF
        invariant Valid() && old(offset) <= offset && all == data[old(offset)..offset]
        invariant error == EOF ==> offset == |data|
        decreases |data| - offset, if error == EOF then 0 else 1
      {
        var n;
        n, error := Read(b);
        all := all + b[..n];
      }
    }
  }

  /** Go's `copy` into a buffer. */
  method Copy(b: array<Byte>, src: seq<Byte>) returns (n: nat)
    modifies b
    ensures n == Min(b.Length, |src|)
    ensures b[..n] == src[..n] && b[n..] == old(b[n..])
  {
    n := Min(b.Length, |src|);
    for i := 0 to n
      invariant b[..i] == src[..i] && b[i..] == old(b[i..])
    {
      b[i] := src[i];
      assert b[..i + 1] == src[..i] + [src[i]] == src[..i + 1];
      assert b[i + 1..] == old(b[i..])[1..] == old(b[i + 1..]);
    }
  }

  // ---------------------------------------------------------------------------
  // Sequences of reads

  /** What a run of reads with the given buffer sizes returns, by the contract of `Read`:
      one piece per call, and the empty piece for a call that reports EOF. */
  ghost function Pieces(data: seq<Byte>, offset: nat, sizes: seq<nat>): (r: seq<seq<Byte>>)
    requires offset <= |data|
    ensures |r| == |sizes|
    decreases |sizes|
  {
    if sizes == [] then []
    else
      var n := Min(sizes[0], |data| - offset);
      [data[offset..offset + n]] + Pieces(data, offset + n, sizes[1..])
  }

  ghost function Concat(pieces: seq<seq<Byte>>): seq<Byte> {
    if pieces == [] then [] else pieces[0] + Concat(pieces[1..])
  }

  ghost function Sum(sizes: seq<nat>): nat {
    if sizes == [] then 0 else sizes[0] + Sum(sizes[1..])
  }

  lemma ConcatFirst(piece: seq<Byte>, rest: seq<seq<Byte>>)
    ensures Concat([piece] + rest) == piece + Concat(rest)
  {
    assert ([piece] + rest)[1..] == rest;
  }

  lemma JoinSlices(data: seq<Byte>, a: nat, b: nat, c: nat)
    requires a <= b <= c <= |data|
    ensures data[a..b] + data[b..c] == data[a..c]
  {
  }

  /** The pieces are consecutive: together they are the data from the start position up
      to the total size asked for, or up to the end. */
  lemma {:induction false} PiecesConcat(data: seq<Byte>, offset: nat, sizes: seq<nat>)
    requires offset <= |data|
    ensures Concat(Pieces(data, offset, sizes)) == data[offset..Min(offset + Sum(sizes), |data|)]
    decreases |sizes|
  {
    if sizes != [] {
      var n := Min(sizes[0], |data| - offset);
      PiecesConcat(data, offset + n, sizes[1..]);
      ConcatFirst(data[offset..offset + n], Pieces(data, offset + n, sizes[1..]));
      var end := Min(offset + Sum(sizes), |data|);
      assert end == Min(offset + n + Sum(sizes[1..]), |data|);
      JoinSlices(data, offset, offset + n, end);
    }
  }

  lemma {:induction false} PiecesAppend(data: seq<Byte>, offset: nat, sizes: seq<nat>, size: nat)
    requires offset <= |data|
    ensures Sum(sizes + [size]) == Sum(sizes) + size
    ensures var start := Min(offset + Sum(sizes), |data|);
            Pieces(data, offset, sizes + [size]) == Pieces(data, offset, sizes) + [data[start..Min(start + size, |data|)]]
    decreases |sizes|
  {
    if sizes == [] {
      assert sizes + [size] == [size] && [size][1..] == [];
    } else {
      var n := Min(sizes[0], |data| - offset);
      PiecesAppend(data, offset + n, sizes[1..], size);
      assert (sizes + [size])[1..] == sizes[1..] + [size];
      assert Min(offset + Sum(sizes), |data|) == Min(offset + n + Sum(sizes[1..]), |data|);
    }
  }

  /** What the read after `i` others returns. */
  lemma NextPiece(data: seq<Byte>, start: nat, sizes: seq<nat>, i: nat)
    requires start <= |data| && i < |sizes|
    ensures var from, to := Min(start + Sum(sizes[..i]), |data|), Min(start + Sum(sizes[..i + 1]), |data|);
            && to == Min(from + sizes[i], |data|)
            && Pieces(data, start, sizes[..i + 1]) == Pieces(data, start, sizes[..i]) + [data[from..to]]
            && (from == |data| <==> Exhausted(data, start, sizes[..i]))
  {
    assert sizes[..i + 1] == sizes[..i] + [sizes[i]];
    PiecesAppend(data, start, sizes[..i], sizes[i]);
    ExhaustedIff(data, start, sizes[..i]);
  }

  /** The k-th piece starts where the sizes before it end. */
  lemma {:induction false} PieceAt(data: seq<Byte>, offset: nat, sizes: seq<nat>, k: nat)
    requires offset <= |data| && k < |sizes|
    ensures var start := Min(offset + Sum(sizes[..k]), |data|);
            Pieces(data, offset, sizes)[k] == data[start..Min(start + sizes[k], |data|)]
    decreases |sizes|
  {
    if k > 0 {
      var n := Min(sizes[0], |data| - offset);
      PieceAt(data, offset + n, sizes[1..], k - 1);
      assert sizes[..k][1..] == sizes[1..][..k - 1];
    }
  }

  /** Reads of the given sizes return all the data. */
  ghost predicate Exhausted(data: seq<Byte>, offset: nat, sizes: seq<nat>)
    requires offset <= |data|
  {
    Concat(Pieces(data, offset, sizes)) == data[offset..]
  }

  lemma ExhaustedIff(data: seq<Byte>, offset: nat, sizes: seq<nat>)
    requires offset <= |data|
    ensures Exhausted(data, offset, sizes) <==> offset + Sum(sizes) >= |data|
  {
    PiecesConcat(data, offset, sizes);
    var end := Min(offset + Sum(sizes), |data|);
    assert |data[offset..end]| == end - offset;
  }

  /** With non-empty buffers, the k-th piece is empty exactly when the calls before it
      have returned all the data. */
  lemma EofExactlyWhenExhausted(data: seq<Byte>, offset: nat, sizes: seq<nat>, k: nat)
    requires offset <= |data| && k < |sizes| && sizes[k] > 0
    ensures Pieces(data, offset, sizes)[k] == [] <==> Exhausted(data, offset, sizes[..k])
  {
    PieceAt(data, offset, sizes, k);
    ExhaustedIff(data, offset, sizes[..k]);
    var start := Min(offset + Sum(sizes[..k]), |data|);
    assert start < |data| ==> |data[start..Min(start + sizes[k], |data|)]| > 0;
  }

  // ---------------------------------------------------------------------------
  // Directories

  class MapDir<E> {
    const entry: seq<E>
    var offset: nat

    ghost predicate Valid()
      reads this
    {
      offset <= |entry|
    }

    constructor (entry: seq<E>)
      ensures Valid() && this.entry == entry && offset == 0
    {
      this.entry, offset := entry, 0;
    }

    /** The next `count` entries, or all that are left when `count <= 0`; EOF only when a
        positive number was asked for and nothing is left. */
    method ReadDir(count: int) returns (list: seq<E>, error: ReadError)
      requires Valid()
      modifies this
      ensures Valid() && old(offset) <= offset && list == entry[old(offset)..offset]
      ensures offset == if count <= 0 then |entry| else Min(old(offset) + count, |entry|)
      ensures error == if count > 0 && old(offset) == |entry| then EOF else NoError
    {
      var n := |entry| - offset;
      if n == 0 && count > 0 {
        return [], EOF;
      }
      if count > 0 && n > count {
        n := count;
      }
      list := [];
      for i := 0 to n
        invariant list == entry[offset..offset + i]
      {
        list := list + [entry[offset + i]];
      }
      offset := offset + n;
      error := NoError;
    }

    /** Page after page until EOF lists each remaining entry once, in order. */
    method ReadPages(count: nat) returns (all: seq<E>)
      requires Valid() && count > 0
      modifies this
      ensures Valid() && offset == |entry| && all == entry[old(offset)..]
    {
      all := [];
      var error := NoError;
      while error != EOF
        invariant Valid() && old(offset) <= offset && all == entry[old(offset)..offset]
        invariant error == EOF ==> offset == |entry|
        decreases |entry| - offset, if error == EOF then 0 else 1
      {
        var page;
        page, error := ReadDir(count);
        all := all + page;
      }
    }
  }
}
