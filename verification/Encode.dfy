/** The entry points of the encoder, and the reader that hands the output out in pieces.

    Buffers come from a pool, so each entry point takes one in whatever state its last use left it.
 */
module Encode {
  import opened BigEndian
  import opened Header
  import opened Wrappers
  import opened Codec
  import opened Encoder

  /** Resets a buffer and writes v into it; the buffer then stands for the encoding. */
  method Fill(eb: EncBuf, t: Type, v: Value) returns (ok: bool)
    requires eb.Valid() && HasType(t, v) && |Enc(t, v)| < U64_LIMIT
    modifies eb, eb.sizebuf
    ensures ok <==> NonNegative(v)
    ensures ok ==> Complete(eb.str, eb.lheads, eb.lhsize)
    ensures ok ==> Spliced(eb.str, eb.lheads, 0) == Enc(t, v) && eb.Size() == |Enc(t, v)|
  {
    eb.Reset();
    ok := eb.Write(t, v);
    if ok {
      assert eb.lheads[0..] == eb.lheads;
      SplicedLength(eb.str, eb.lheads, 0);
    }
  }

  method EncodeToBytes(eb: EncBuf, t: Type, v: Value) returns (r: Option<seq<byte>>)
    requires eb.Valid() && HasType(t, v) && |Enc(t, v)| < U64_LIMIT
    modifies eb, eb.sizebuf
    ensures r == if NonNegative(v) then Some(Enc(t, v)) else None
  {
    var ok := Fill(eb, t, v);
    if !ok { return None; }
    var out := eb.ToBytes();
    r := Some(out[..]);
  }

  /** Encodes to a writer. Nothing is sent for a value that cannot be encoded; a writer that runs full
      has received the front of the encoding. */
  method EncodeToWriter(eb: EncBuf, w: Sink, t: Type, v: Value) returns (ok: bool)
    requires eb.Valid() && HasType(t, v) && |Enc(t, v)| < U64_LIMIT && w.Valid()
    modifies eb, eb.sizebuf, w
    ensures w.Valid()
    ensures ok ==> NonNegative(v) && w.got == old(w.got) + Enc(t, v)
    ensures !ok && NonNegative(v) ==> |w.got| == w.limit && old(w.got) <= w.got < old(w.got) + Enc(t, v)
    ensures !NonNegative(v) ==> !ok && w.got == old(w.got)
  {
    ok := Fill(eb, t, v);
    if ok {
      ok := eb.ToWriter(w);
    }
  }

  method EncodeToReader(eb: EncBuf, t: Type, v: Value) returns (size: nat, r: EncReader?)
    requires eb.Valid() && HasType(t, v) && |Enc(t, v)| < U64_LIMIT
    modifies eb, eb.sizebuf
    ensures r != null <==> NonNegative(v)
    ensures r != null ==> fresh(r) && r.Valid() && r.buf == eb && r.Left() == Enc(t, v) && size == |Enc(t, v)|
  {
    var ok := Fill(eb, t, v);
    if !ok { return 0, null; }
    size := eb.Size();
    r := new EncReader(eb);
  }

  /** Hands out a complete buffer piece by piece: string data up to the next header, that header, and so on.
      The buffer goes back to the pool at the end. */
  class EncReader {
    var buf: EncBuf?               // null once everything was handed out
    var lhpos: nat                 // index of the next list header
    var strpos: nat                // position in the string data
    var piece: Option<seq<byte>>   // taken from the buffer but not handed out yet

    ghost predicate Valid()
      reads this, buf
    {
      && (piece.Some? ==> piece.value != [] && buf != null)
      && (buf != null ==>
        && buf.Valid()
        && Complete(buf.str, buf.lheads, buf.lhsize)
        && lhpos <= |buf.lheads| && Placed(buf.str, buf.lheads[lhpos..], strpos))
    }

    /** What is still to be taken from the buffer. */
    ghost function Ahead(): seq<byte>
      requires Valid()
      reads this, buf
    {
      if buf == null then [] else Spliced(buf.str, buf.lheads[lhpos..], strpos)
    }

    /** What is still to be handed out. */
    ghost function Left(): seq<byte>
      requires Valid()
      reads this, buf
    {
      (if piece.Some? then piece.value else []) + Ahead()
    }

    constructor (eb: EncBuf)
      requires eb.Valid() && Complete(eb.str, eb.lheads, eb.lhsize)
      ensures Valid() && buf == eb && Left() == Spliced(eb.str, eb.lheads, 0)
    {
      buf, lhpos, strpos, piece := eb, 0, 0, None;
      new;
      assert eb.lheads[0..] == eb.lheads;
    }

    /** Takes the next piece, or none at the end. */
    method Next() returns (p: Option<seq<byte>>)
      requires Valid()
      modifies this`lhpos, this`strpos, if buf == null then {} else {buf.sizebuf}
      ensures Valid() && (p.Some? ==> p.value != [] && buf != null)
      ensures old(piece).Some? ==> p == old(piece) && Ahead() == old(Ahead())
      ensures old(piece).None? ==> (if p.Some? then p.value else []) + Ahead() == old(Ahead())
      ensures p.None? ==> old(Left()) == []
    {
      if buf == null { return None; }
      if piece.Some? { return piece; }
      if lhpos < |buf.lheads| {
        var head := buf.lheads[lhpos];
        NextPiece(buf.str, buf.lheads, lhpos, strpos);
        var sizebefore := head.offset - strpos;
        if sizebefore > 0 {
          p := Some(buf.str[strpos..head.offset]);
          strpos := strpos + sizebefore;
          return;
        }
        lhpos := lhpos + 1;
        var enc := buf.EncodeHead(head.size);
        return Some(enc);
      }
      assert buf.lheads[lhpos..] == [];
      if strpos < |buf.str| {
        p := Some(buf.str[strpos..]);
        strpos := |buf.str|;
        return;
      }
      return None;
    }

    method Fetch()
      requires Valid()
      modifies this`lhpos, this`strpos, this`piece, if buf == null then {} else {buf.sizebuf}
      ensures Valid() && Left() == old(Left())
      ensures piece.None? ==> Left() == []
    {
      piece := Next();
    }

    /** Fills b from the front. */
    method Read(b: array<byte>) returns (n: nat, eof: bool)
      requires Valid() && (buf != null ==> b != buf.sizebuf)
      modifies this, b, if buf == null then {} else {buf.sizebuf}
      ensures Valid() && (buf == old(buf) || buf == null)
      ensures n <= b.Length && b[..n] + Left() == old(Left())
      ensures if eof then Left() == [] else n == b.Length && Left() != []
    {
      hide Spliced, Placed, Complete, HeadTotal;
      ghost var all := Left();
      n := 0;
      while true
        invariant Valid() && buf == old(buf) && n <= b.Length
        invariant b[..n] + Left() == all
        modifies this, b, if buf == null then {} else {buf.sizebuf}
        decreases |Left()|
      {
        Fetch();
        if piece.None? {
          buf := null;
          return n, true;
        }
        var full;
        n, full := HandOut(b, n);
        if full { return n, false; }
      }
    }

    /** Copies the current piece behind the first n bytes of b, keeping what does not fit. */
    method HandOut(b: array<byte>, n: nat) returns (m: nat, full: bool)
      requires Valid() && piece.Some? && n <= b.Length
      modifies this`piece, b
      ensures Valid() && n <= m <= b.Length
      ensures b[..m] + Left() == old(b[..n] + Left())
      ensures full <==> n + |old(piece).value| > b.Length
      ensures full ==> m == b.Length && Left() != []
      ensures !full ==> |Left()| < |old(Left())|
    {
      var p := piece.value;
      ghost var ahead, filled := Ahead(), b[..n];
      var nn := if |p| <= b.Length - n then |p| else b.Length - n;
      Copy(b, n, p[..nn]);
      m, full := n + nn, nn < |p|;
      piece := if full then Some(p[nn..]) else None;
      Handed(filled, p, nn, ahead);
    }
  }

  lemma Handed(filled: seq<byte>, p: seq<byte>, nn: nat, ahead: seq<byte>)
    requires nn <= |p|
    ensures filled + p[..nn] + (p[nn..] + ahead) == filled + (p + ahead)
    ensures nn == |p| ==> p[nn..] == []
  {
    assert p == p[..nn] + p[nn..];
  }

  /** What comes next at a mark: the string data in front of it, or else its header. */
  lemma NextPiece(str: seq<byte>, marks: seq<ListMark>, i: nat, strpos: nat)
    requires i < |marks| && Placed(str, marks[i..], strpos)
    ensures strpos <= marks[i].offset <= |str|
    ensures var p := marks[i].offset;
            Placed(str, marks[i..], p) &&
            Spliced(str, marks[i..], strpos) == str[strpos..p] + Spliced(str, marks[i..], p)
    ensures strpos == marks[i].offset ==>
              && Placed(str, marks[i + 1..], strpos)
              && Spliced(str, marks[i..], strpos) == ListHead(marks[i].size) + Spliced(str, marks[i + 1..], strpos)
  {
    assert marks[i..][0] == marks[i] && marks[i..][1..] == marks[i + 1..];
    PlacedBefore(str, marks[i..], strpos, marks[i].offset);
    assert str[strpos..strpos] + ListHead(marks[i].size) == ListHead(marks[i].size);
  }

  function Sum(sizes: seq<nat>): nat
  {
    if sizes == [] then 0 else sizes[0] + Sum(sizes[1..])
  }

  /** Any sequence of reads, whatever the buffer sizes, yields the front of the encoding in order. */
  method ReadPieces(r: EncReader, sizes: seq<nat>) returns (out: seq<byte>)
    requires r.Valid()
    modifies r, if r.buf == null then {} else {r.buf.sizebuf}
    ensures r.Valid()
    ensures out + r.Left() == old(r.Left())
    ensures |out| <= Sum(sizes) && (r.Left() != [] ==> |out| == Sum(sizes))
    decreases |sizes|
  {
    if sizes == [] { return []; }
    var b := new byte[sizes[0]](k => 0);
    var n, _ := r.Read(b);
    var first := b[..n];
    var rest := ReadPieces(r, sizes[1..]);
    out := first + rest;
    Regroup(first, rest, r.Left(), []);
  }
}
