/** wpdk_getdelim of src/stdio.c: reading a stream piece by piece into a buffer that grows. */
module GetDelim {
  import opened Bytes
  import opened Options

  const BUFSIZ: nat := 512

  /** One more than the greatest size_t. */
  const SIZES: nat := 0x1_0000_0000_0000_0000

  /** A stdio stream: what can be read, and where reading fails, if it does. */
  class Stream {
    const data: seq<Byte>
    const errorAt: Option<nat>
    var pos: nat

    constructor (data: seq<Byte>, errorAt: Option<nat>)
      ensures this.data == data && this.errorAt == errorAt && pos == 0
    {
      this.data, this.errorAt, pos := data, errorAt, 0;
    }

    ghost predicate Valid()
      reads this
    {
      pos <= |data|
    }

    ghost function Rest(): seq<Byte>
      reads this
      requires Valid()
    {
      data[pos..]
    }

    /** getc, and whether it hit the end of the file. */
    method Getc() returns (c: Option<Byte>, feof: bool)
      requires Valid()
      modifies this
      ensures Valid()
      ensures old(pos) < |data| && errorAt != Some(old(pos)) ==> c == Some(data[old(pos)]) && pos == old(pos) + 1
      ensures old(pos) == |data| || errorAt == Some(old(pos)) ==> c == None && pos == old(pos)
      ensures feof <==> old(pos) == |data| && errorAt != Some(old(pos))
    {
      if errorAt == Some(pos) {
        return None, false;
      }
      if pos == |data| {
        return None, true;
      }
      c, feof := Some(data[pos]), false;
      pos := pos + 1;
    }
  }

  /** The caller's *lineptr and *n. */
  class Line {
    var buf: array?<Byte>
    var n: nat

    constructor (buf: array?<Byte>, n: nat)
      ensures this.buf == buf && this.n == n
    {
      this.buf, this.n := buf, n;
    }

    ghost predicate Valid()
      reads this
    {
      n < SIZES && (buf != null ==> n <= buf.Length)
    }
  }

  /** The bytes up to and including the first delimiter, or all of them. */
  function Piece(s: seq<Byte>, delim: int): seq<Byte> {
    if s == [] then [] else if s[0] == delim then [s[0]] else [s[0]] + Piece(s[1..], delim)
  }

  /** The piece is a start of the input, its only delimiter can be its last byte, and if that is not
      there the whole input is the piece. */
  lemma {:induction false} PieceShape(s: seq<Byte>, delim: int)
    ensures Piece(s, delim) <= s && (s != [] ==> Piece(s, delim) != [])
    ensures forall i :: 0 <= i < |Piece(s, delim)| - 1 ==> s[i] != delim
    ensures Piece(s, delim) == s || s[|Piece(s, delim)| - 1] == delim
  {
    if s == [] || s[0] == delim {
    } else {
      PieceShape(s[1..], delim);
      var p := Piece(s[1..], delim);
      assert forall i :: 0 < i < |p| ==> s[i] == s[1..][i - 1];
    }
  }

  /** What determines a piece: it has no delimiter before its end, and ends in one or at the end. */
  lemma {:induction false} PieceIs(s: seq<Byte>, k: nat, delim: int)
    requires k <= |s| && forall i :: 0 <= i < k - 1 ==> s[i] != delim
    requires k == |s| || (k > 0 && s[k - 1] == delim)
    ensures Piece(s, delim) == s[..k]
  {
    if s == [] {
    } else {
      if s[0] != delim {
        assert forall i :: 0 <= i < k - 2 ==> s[1..][i] == s[i + 1];
        PieceIs(s[1..], k - 1, delim);
        assert s[..k] == [s[0]] + s[1..][..k - 1];
      } else {
        assert k == 1;
      }
    }
  }

  /** A piece is as long as what comes before its delimiter. */
  lemma LongPiece(s: seq<Byte>, k: nat, delim: int)
    requires k <= |s| && forall i :: 0 <= i < k ==> s[i] != delim
    ensures |Piece(s, delim)| >= k
  {
    PieceShape(s, delim);
  }

  /** Reading would fail before the piece is complete. */
  ghost predicate Fails(data: seq<Byte>, errorAt: Option<nat>, pos: nat, delim: int)
    requires pos <= |data|
  {
    && errorAt.Some? && pos <= errorAt.value <= |data|
    && forall i :: pos <= i < errorAt.value ==> data[i] != delim
  }

  /** Whether the buffer is long enough now, realloc refused, or the doubled size wraps around; what
      happens then is not modelled. */
  datatype Growth = Enough | Refused | Wraps

  lemma NoError(data: seq<Byte>, pos: nat, delim: int)
    requires pos <= |data|
    ensures !Fails(data, None, pos, delim)
  {
  }

  /** The growth of the buffer; grant says which sizes realloc would give. */
  method Grow(line: Line, len: nat, grant: nat -> bool) returns (g: Growth)
    requires line.Valid() && (len > 0 ==> line.buf != null && len + 1 <= line.n)
    modifies line
    ensures line.Valid()
    ensures g == Enough ==> line.buf != null && len + 2 <= line.n
    ensures g != Enough ==> line.buf == old(line.buf) && line.n == old(line.n)
    ensures g == Enough && len > 0 ==> line.buf[..len] == old(line.buf[..len])
    ensures line.buf == old(line.buf) || fresh(line.buf)
    ensures g == Wraps <==> line.buf != null && len + 2 >= line.n >= SIZES / 2
    ensures (forall k :: grant(k)) ==> g != Refused
  {
    if line.buf != null && len + 2 < line.n {
      return Enough;
    }
    var newlen := if line.buf != null && line.n > 0 then line.n * 2 else BUFSIZ;
    if newlen >= SIZES {
      return Wraps;
    }
    if !grant(newlen) {
      return Refused;
    }
    var buf, was := new Byte[newlen], line.buf;
    if len > 0 {
      for i := 0 to len
        invariant buf[..i] == was[..i]
      {
        buf[i] := was[i];
      }
    }
    line.buf, line.n := buf, newlen;
    return Enough;
  }

  /** What wpdk_getdelim does: it returns a length, it returns -1, it writes the terminator where
      there is no buffer, or the size of the buffer wraps around. */
  datatype Outcome = Got(len: nat) | Failed | NoBuffer | Wrapped

  /** wpdk_getdelim. A delimiter of zero stops it before the first byte and before it has a buffer. */
  method Getdelim(line: Line, delim: int, stream: Stream, grant: nat -> bool) returns (r: Outcome)
    requires line.Valid() && stream.Valid()
    modifies line, stream, line.buf
    ensures line.Valid() && stream.Valid() && (line.buf == old(line.buf) || fresh(line.buf))
    ensures delim == 0 ==> stream.pos == old(stream.pos)
    ensures delim == 0 ==> r == if old(line.buf) == null || old(line.n) == 0 then NoBuffer else Got(0)
    ensures r == NoBuffer ==> delim == 0
    ensures r.Got? ==> line.buf != null && r.len < line.n && line.buf[r.len] == 0
    ensures r.Got? && delim != 0 ==>
      && line.buf[..r.len] == Piece(old(stream.Rest()), delim) != []
      && stream.pos == old(stream.pos) + r.len
    ensures r == Wrapped ==> delim != 0 && |Piece(old(stream.Rest()), delim)| >= SIZES / 2 - 2
    ensures delim != 0 && (forall k :: grant(k)) && r != Wrapped ==>
      (r == Failed <==> old(stream.pos) == |stream.data| || Fails(stream.data, stream.errorAt, old(stream.pos), delim))
    ensures r == Failed && (forall k :: grant(k)) && stream.errorAt == None ==> stream.pos == old(stream.pos)
  {
    hide Piece;
    ghost var rest := stream.Rest();
    var len, ch := 0, 0;
    while ch != delim
      invariant line.Valid() && stream.Valid() && (line.buf == old(line.buf) || fresh(line.buf))
      invariant len <= |rest| && stream.pos == old(stream.pos) + len
      invariant len > 0 ==> line.buf != null && len + 1 <= line.n && line.buf[..len] == rest[..len]
      invariant if len == 0 then ch == 0 else ch == rest[len - 1]
      invariant delim != 0 ==> forall i :: 0 <= i < len - 1 ==> rest[i] != delim
      invariant delim == 0 ==> len == 0 && line.buf == old(line.buf) && line.n == old(line.n)
      invariant forall k :: old(stream.pos) <= k < stream.pos ==> stream.errorAt != Some(k)
      decreases |rest| - len, 1
    {
      var g := Grow(line, len, grant);
      if g == Wraps {
        LongPiece(rest, len, delim);
        return Wrapped;
      }
      if g == Refused {
        return Failed;
      }
      var c, feof := stream.Getc();
      if c == None {
        if feof && len > 0 {
          break;
        }
        return Failed;
      }
      ch := c.value;
      line.buf[len] := c.value;
      len := len + 1;
    }
    if line.buf == null || line.n == 0 {
      return NoBuffer;
    }
    line.buf[len] := 0;
    r := Got(len);
    if delim != 0 { PieceIs(rest, len, delim); }
  }

  // ----- a whole stream -----

  /** What repeated calls return. */
  function Pieces(s: seq<Byte>, delim: int): seq<seq<Byte>>
    decreases |s|
  {
    if s == [] then []
    else
      PieceShape(s, delim);
      [Piece(s, delim)] + Pieces(s[|Piece(s, delim)|..], delim)
  }

  function Joined(ps: seq<seq<Byte>>): seq<Byte> {
    if ps == [] then [] else ps[0] + Joined(ps[1..])
  }

  /** A piece that ends in its only delimiter. */
  predicate Terminated(p: seq<Byte>, delim: int) {
    p != [] && p[|p| - 1] == delim && forall i :: 0 <= i < |p| - 1 ==> p[i] != delim
  }

  predicate Unterminated(p: seq<Byte>, delim: int) {
    p != [] && forall i :: 0 <= i < |p| ==> p[i] != delim
  }

  /** Each piece but possibly the last ends in its only delimiter. */
  predicate WellCut(ps: seq<seq<Byte>>, delim: int) {
    && (forall k :: 0 <= k < |ps| - 1 ==> Terminated(ps[k], delim))
    && (ps != [] ==> Terminated(ps[|ps| - 1], delim) || Unterminated(ps[|ps| - 1], delim))
  }

  lemma PiecesNext(s: seq<Byte>, delim: int)
    ensures if s == [] then Pieces(s, delim) == [] && Piece(s, delim) == []
            else
              && 0 < |Piece(s, delim)| <= |s|
              && Pieces(s, delim) == [Piece(s, delim)] + Pieces(s[|Piece(s, delim)|..], delim)
  {
    PieceShape(s, delim);
  }

  lemma PieceEnds(s: seq<Byte>, delim: int)
    requires s != []
    ensures var p := Piece(s, delim);
      p <= s && (Terminated(p, delim) || (Unterminated(p, delim) && p == s))
  {
    PieceShape(s, delim);
    hide Piece;
  }

  lemma WellCutNext(p: seq<Byte>, ps: seq<seq<Byte>>, delim: int)
    requires WellCut(ps, delim) && (Terminated(p, delim) || (Unterminated(p, delim) && ps == []))
    ensures WellCut([p] + ps, delim) && Joined([p] + ps) == p + Joined(ps)
  {
    hide Terminated, Unterminated;
    assert ([p] + ps)[1..] == ps;
  }

  /** The pieces put together are the stream, and each but possibly the last ends in its only
      delimiter. */
  lemma {:induction false} PiecesPartition(s: seq<Byte>, delim: int)
    ensures Joined(Pieces(s, delim)) == s
    ensures WellCut(Pieces(s, delim), delim)
    decreases |s|
  {
    if s == [] {
    } else {
      var p := Piece(s, delim);
      PiecesNext(s, delim);
      PieceEnds(s, delim);
      PiecesPartition(s[|p|..], delim);
      PiecesNext(s[|p|..], delim);
      hide *;
      WellCutNext(p, Pieces(s[|p|..], delim), delim);
      assert s == p + s[|p|..];
    }
  }

  /** There is only one way to cut a stream like that. */
  lemma {:induction false} PiecesUnique(ps: seq<seq<Byte>>, delim: int)
    requires WellCut(ps, delim)
    ensures Pieces(Joined(ps), delim) == ps
  {
    if ps == [] {
    } else {
      hide *;
      WellCutTail(ps, delim);
      PiecesUnique(ps[1..], delim);
      FirstPiece(ps[0], Joined(ps[1..]), delim);
      PiecesNext(Joined(ps), delim);
    }
  }

  lemma FirstPiece(p: seq<Byte>, rest: seq<Byte>, delim: int)
    requires Terminated(p, delim) || (Unterminated(p, delim) && rest == [])
    ensures p != [] && Piece(p + rest, delim) == p && (p + rest)[|p|..] == rest
  {
    hide Piece;
    assert (p + rest)[..|p|] == p;
    PieceIs(p + rest, |p|, delim);
  }

  lemma WellCutTail(ps: seq<seq<Byte>>, delim: int)
    requires WellCut(ps, delim) && ps != []
    ensures WellCut(ps[1..], delim) && Joined(ps) == ps[0] + Joined(ps[1..])
    ensures Terminated(ps[0], delim) || (Unterminated(ps[0], delim) && Joined(ps[1..]) == [])
  {
  }

  lemma Regroup<T>(a: seq<T>, x: T, b: seq<T>)
    ensures a + ([x] + b) == a + [x] + b && x in a + ([x] + b)
  {
    assert (a + [x] + b)[|a|] == x;
  }

  /** A caller that reads until getdelim fails gets exactly the pieces, whatever buffer it starts
      with, if there is memory and no read error, and no piece is so long that its size wraps around. */
  method ReadAll(line: Line, delim: int, stream: Stream, grant: nat -> bool)
    returns (ps: seq<seq<Byte>>, wrapped: bool)
    requires line.Valid() && stream.Valid() && delim != 0
    requires stream.errorAt == None && forall k :: grant(k)
    modifies line, stream, line.buf
    ensures wrapped ==> exists p :: p in Pieces(old(stream.Rest()), delim) && |p| >= SIZES / 2 - 2
    ensures !wrapped ==> ps == Pieces(old(stream.Rest()), delim) && stream.Valid() && stream.Rest() == []
  {
    hide Pieces, Piece, Fails;
    ps, wrapped := [], false;
    ghost var all := Pieces(stream.Rest(), delim);
    while true
      invariant line.Valid() && stream.Valid() && (line.buf == old(line.buf) || fresh(line.buf))
      invariant ps + Pieces(stream.Rest(), delim) == all
      decreases |stream.Rest()|
    {
      ghost var rest := stream.Rest();
      label Before:
      var r := Getdelim(line, delim, stream, grant);
      PiecesNext(rest, delim);
      NoError(stream.data, old@Before(stream.pos), delim);
      if r == Wrapped {
        wrapped := true;
        Regroup(ps, Piece(rest, delim), Pieces(rest[|Piece(rest, delim)|..], delim));
        return;
      }
      if r == Failed {
        return;
      }
      assert stream.Rest() == rest[r.len..];
      Regroup(ps, Piece(rest, delim), Pieces(rest[r.len..], delim));
      ps := ps + [line.buf[..r.len]];
    }
  }
}
