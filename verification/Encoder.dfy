/** The encoder: flat string data plus a side list of list headers, spliced together on output.

    While a list is being written its size is unknown, so its header is only recorded: the offset in the
    string data where it belongs, and its size once the list ends. `Spliced` says what a buffer stands
    for; all three output paths are proved to produce exactly that, and writing a value is proved to
    append exactly its RLP encoding.
 */
module Encoder {
  import opened BigEndian
  import opened Header
  import opened Codec

  /** A recorded header. `size` is the list's payload once it has ended; until then it holds the
      header bytes counted so far. */
  datatype ListMark = ListMark(offset: nat, size: nat)

  // ---------------------------------------------------------------- what a buffer stands for

  /** The marks lie in the string data from p on, in order. */
  predicate Placed(str: seq<byte>, marks: seq<ListMark>, p: nat)
  {
    if marks == [] then p <= |str|
    else p <= marks[0].offset <= |str| && Placed(str, marks[1..], marks[0].offset)
  }

  /** The string data from p on with every header put in its place. */
  function Spliced(str: seq<byte>, marks: seq<ListMark>, p: nat): seq<byte>
    requires Placed(str, marks, p)
  {
    if marks == [] then str[p..]
    else str[p..marks[0].offset] + ListHead(marks[0].size) + Spliced(str, marks[1..], marks[0].offset)
  }

  /** Bytes taken by the headers. */
  function HeadTotal(marks: seq<ListMark>): nat
  {
    if marks == [] then 0 else HeadSize(marks[0].size) + HeadTotal(marks[1..])
  }

  /** A buffer whose lists have all ended. */
  predicate Complete(str: seq<byte>, marks: seq<ListMark>, lhsize: nat)
  {
    Placed(str, marks, 0) && lhsize == HeadTotal(marks) && forall m | m in marks :: m.size < U64_LIMIT
  }

  lemma {:induction false} SplicedLength(str: seq<byte>, marks: seq<ListMark>, p: nat)
    requires Placed(str, marks, p)
    ensures p <= |str| && |Spliced(str, marks, p)| == |str| - p + HeadTotal(marks)
  {
    if marks != [] {
      SplicedLength(str, marks[1..], marks[0].offset);
    }
  }

  /** Appending string data and later marks appends to the spliced output. */
  lemma {:induction false} SplicedAppend(str: seq<byte>, marks: seq<ListMark>, p: nat,
                                         str': seq<byte>, more: seq<ListMark>)
    requires Placed(str, marks, p) && str <= str' && Placed(str', more, |str|)
    ensures Placed(str', marks + more, p)
    ensures Spliced(str', marks + more, p) == Spliced(str, marks, p) + Spliced(str', more, |str|)
  {
    if marks == [] {
      assert marks + more == more;
      PlacedBefore(str', more, p, |str|);
      assert str == str'[..|str|];
    } else {
      var first := marks[0].offset;
      assert (marks + more)[1..] == marks[1..] + more;
      SplicedAppend(str, marks[1..], first, str', more);
      var before, after := Spliced(str, marks[1..], first), Spliced(str', more, |str|);
      assert str'[p..first] == str[p..first];
      Regroup(str[p..first] + ListHead(marks[0].size), before, after, []);
    }
  }

  /** Starting the output earlier only adds the string data in between. */
  lemma {:induction false} PlacedBefore(str: seq<byte>, marks: seq<ListMark>, p: nat, q: nat)
    requires p <= q && Placed(str, marks, q)
    ensures q <= |str| && Placed(str, marks, p)
    ensures Spliced(str, marks, p) == str[p..q] + Spliced(str, marks, q)
  {
    SplicedLength(str, marks, q);
    if marks == [] {
      assert str[p..] == str[p..q] + str[q..];
    } else {
      var first := marks[0].offset;
      assert str[p..first] == str[p..q] + str[q..first];
      Regroup(str[p..q], str[q..first], ListHead(marks[0].size), Spliced(str, marks[1..], first));
    }
  }

  lemma Regroup(a: seq<byte>, b: seq<byte>, c: seq<byte>, d: seq<byte>)
    ensures a + b + c + d == a + (b + c + d)
    ensures a + b + c == a + (b + c)
  {
  }

  lemma {:induction false} HeadTotalAppend(a: seq<ListMark>, b: seq<ListMark>)
    ensures HeadTotal(a + b) == HeadTotal(a) + HeadTotal(b)
  {
    if a == [] {
      assert a + b == b;
    } else {
      assert (a + b)[1..] == a[1..] + b;
      HeadTotalAppend(a[1..], b);
    }
  }

  /** The contents of an encode buffer. */
  datatype Contents = Contents(str: seq<byte>, marks: seq<ListMark>, lhsize: nat)

  /** What was written between two points in the life of a buffer stands for `out`. */
  ghost predicate Wrote(c: Contents, c': Contents, out: seq<byte>)
  {
    && c.str <= c'.str && c.marks <= c'.marks
    && var added := c'.marks[|c.marks|..];
    && Placed(c'.str, added, |c.str|)
    && Spliced(c'.str, added, |c.str|) == out
    && c'.lhsize == c.lhsize + HeadTotal(added)
    && (forall m | m in added :: m.size < U64_LIMIT)
  }

  /** Writing one thing after another. */
  lemma WroteThen(c0: Contents, c1: Contents, c2: Contents, a: seq<byte>, b: seq<byte>)
    requires Wrote(c0, c1, a) && Wrote(c1, c2, b)
    ensures Wrote(c0, c2, a + b)
  {
    var first, second := c1.marks[|c0.marks|..], c2.marks[|c1.marks|..];
    assert c2.marks[|c0.marks|..] == first + second;
    SplicedAppend(c1.str, first, |c0.str|, c2.str, second);
    HeadTotalAppend(first, second);
  }

  /** Appending string data alone. */
  lemma WroteString(c: Contents, b: seq<byte>)
    ensures Wrote(c, c.(str := c.str + b), b)
  {
    assert (c.str + b)[|c.str|..] == b;
    assert c.marks[|c.marks|..] == [];
  }

  lemma WroteNothing(c: Contents)
    ensures Wrote(c, c, [])
  {
    WroteString(c, []);
    assert c.str + [] == c.str;
  }

  /** A mark that is closed after the payload was written stands for the whole list. */
  lemma WroteList(c: Contents, open: ListMark, c': Contents, payload: seq<byte>)
    requires open.offset == |c.str| && |payload| < U64_LIMIT
    requires Wrote(c.(marks := c.marks + [open]), c', payload)
    ensures c'.marks[|c.marks|] == open
    ensures |c'.str| + c'.lhsize - |c.str| - c.lhsize == |payload|
    ensures var closed := c'.marks[|c.marks| := ListMark(|c.str|, |payload|)];
            Wrote(c, Contents(c'.str, closed, c'.lhsize + HeadSize(|payload|)), EncList(payload))
  {
    var inner := c'.marks[|c.marks| + 1..];
    var mark := ListMark(|c.str|, |payload|);
    SplicedLength(c'.str, inner, |c.str|);
    assert c'.marks[|c.marks| := mark][|c.marks|..] == [mark] + inner;
    assert ([mark] + inner)[1..] == inner;
    assert c'.str[|c.str|..|c.str|] + ListHead(mark.size) == ListHead(mark.size);
  }

  // ---------------------------------------------------------------- the buffer

  class EncBuf {
    var str: seq<byte>           // everything except list headers
    var lheads: seq<ListMark>    // all list headers
    var lhsize: nat              // sum of the sizes of all headers of ended lists
    const sizebuf: array<byte>   // scratch space for headers

    ghost predicate Valid() { sizebuf.Length == 9 }

    ghost function Now(): Contents
      reads this
    {
      Contents(str, lheads, lhsize)
    }

    constructor ()
      ensures Valid() && fresh(sizebuf) && str == [] && lheads == [] && lhsize == 0
    {
      str, lheads, lhsize := [], [], 0;
      sizebuf := new byte[9](i => 0);
    }

    method Reset()
      modifies this
      ensures str == [] && lheads == [] && lhsize == 0
    {
      str, lheads, lhsize := [], [], 0;
    }

    function Size(): nat
      reads this
    {
      |str| + lhsize
    }

    /** Opens a list. The result is the position of its mark in `lheads`. */
    method List() returns (lh: nat)
      modifies this
      ensures lh == |old(lheads)| && lheads == old(lheads) + [ListMark(|old(str)|, old(lhsize))]
      ensures str == old(str) && lhsize == old(lhsize)
    {
      lh := |lheads|;
      lheads := lheads + [ListMark(|str|, lhsize)];
    }

    /** Ends the list opened at mark lh. If everything since stands for the payload, the recorded size is its length,
        nested headers included, and the buffer now stands for the whole list. */
    method ListEnd(lh: nat, ghost before: Contents, ghost payload: seq<byte>)
      requires lh == |before.marks| && |payload| < U64_LIMIT
      requires Wrote(before.(marks := before.marks + [ListMark(|before.str|, before.lhsize)]), Now(), payload)
      modifies this
      ensures str == old(str) && lheads == old(lheads)[lh := ListMark(|before.str|, |payload|)]
      ensures Wrote(before, Now(), EncList(payload))
    {
      WroteList(before, ListMark(|before.str|, before.lhsize), Now(), payload);
      var size := Size() - lheads[lh].offset - lheads[lh].size;
      lheads := lheads[lh := ListMark(lheads[lh].offset, size)];
      if size < 56 {
        lhsize := lhsize + 1;
      } else {
        var n := IntSize(size);
        lhsize := lhsize + 1 + n;
      }
    }

    method EncodeStringHeader(size: nat)
      requires Valid() && size < U64_LIMIT
      modifies this, sizebuf
      ensures str == old(str) + StringHead(size) && lheads == old(lheads) && lhsize == old(lhsize)
    {
      if size < 56 {
        str := str + [0x80 + size];
      } else {
        LongHead(Kind.String, size);
        var sizesize := PutInt(sizebuf, 1, size);
        PutTag(sizebuf, 0, 0xB7, sizesize, Bytes(size));
        str := str + sizebuf[..sizesize + 1];
      }
    }

    method EncodeString(b: seq<byte>)
      requires Valid() && |b| < U64_LIMIT
      modifies this, sizebuf
      ensures str == old(str) + EncString(b) && lheads == old(lheads) && lhsize == old(lhsize)
    {
      if |b| == 1 && b[0] <= 0x7F {
        str := str + [b[0]];
      } else {
        EncodeStringHeader(|b|);
        str := str + b;
      }
    }

    method WriteUint(i: u64)
      requires Valid()
      modifies this, sizebuf
      ensures str == old(str) + EncString(Bytes(i)) && lheads == old(lheads) && lhsize == old(lhsize)
    {
      if i == 0 {
        str := str + [0x80];
      } else if i < 0x80 {
        str := str + [i];
        assert Bytes(i) == Bytes(0) + [i];
      } else {
        U64Length(i);
        assert i < 0x100 ==> Bytes(i) == Bytes(0) + [i];
        assert i >= 0x100 ==> |Bytes(i / 0x100)| > 0;
        var s := PutInt(sizebuf, 1, i);
        PutTag(sizebuf, 0, 0x80, s, Bytes(i));
        str := str + sizebuf[..s + 1];
      }
    }

    /** Writes v as a value of type t. Fails on a negative big integer, leaving a buffer to be reset. */
    method Write(t: Type, v: Value) returns (ok: bool)
      requires Valid() && HasType(t, v) && |Enc(t, v)| < U64_LIMIT
      modifies this, sizebuf
      ensures ok <==> NonNegative(v)
      ensures ok ==> Wrote(old(Now()), Now(), Enc(t, v))
      decreases v, 0
    {
      ok := true;
      match v {
        case Num(n) =>
          if t.TUint? {
            WidthFits(t.width, n);
            WriteUint(n);
          } else if n < 0 {
            return false;
          } else if n == 0 {
            str := str + [0x80];
          } else {
            EncodeString(Bytes(n));
          }
        case Flag(b) =>
          str := str + [if b then 0x01 else 0x80];
        case Blob(bs) =>
          if t.TRaw? {
            str := str + bs;
          } else {
            EncodeString(bs);
          }
        case Items(vs) =>
          ok := WriteList(LayoutOf(t), vs);
          return;
      }
      WroteString(old(Now()), Enc(t, v));
    }

    /** Writes a slice, array or struct: a list header around its items. */
    method WriteList(lay: Layout, vs: seq<Value>) returns (ok: bool)
      requires Valid() && HasLayout(lay, vs) && |EncList(EncItems(lay, vs))| < U64_LIMIT
      modifies this, sizebuf
      ensures ok <==> AllNonNegative(vs)
      ensures ok ==> Wrote(old(Now()), Now(), EncList(EncItems(lay, vs)))
      decreases vs, 1
    {
      var lh := List();
      ok := WriteItems(lay, vs);
      if ok {
        ListEnd(lh, old(Now()), EncItems(lay, vs));
      }
    }

    method WriteItems(lay: Layout, vs: seq<Value>) returns (ok: bool)
      requires Valid() && HasLayout(lay, vs) && |EncItems(lay, vs)| < U64_LIMIT
      modifies this, sizebuf
      ensures ok <==> AllNonNegative(vs)
      ensures ok ==> Wrote(old(Now()), Now(), EncItems(lay, vs))
      decreases vs, 0
    {
      var todo, rest := lay, vs;
      ghost var done: seq<byte> := [];
      ok := true;
      WroteNothing(Now());
      while rest != []
        invariant HasLayout(todo, rest) && |rest| <= |vs| && rest == vs[|vs| - |rest|..]
        invariant AllNonNegative(rest) <==> AllNonNegative(vs)
        invariant EncItems(lay, vs) == done + EncItems(todo, rest)
        invariant var kept := Wrote(old(Now()), Now(), done); kept
      {
        ghost var before, out := Now(), Enc(todo.Head(), rest[0]);
        ok := Write(todo.Head(), rest[0]);
        if !ok { return; }
        WroteThen(old(Now()), before, Now(), done, out);
        Regroup(done, out, EncItems(todo.Rest(), rest[1..]), []);
        done := done + out;
        todo, rest := todo.Rest(), rest[1..];
      }
    }

    /** Allocates the exact output size and fills it front to back. */
    method ToBytes() returns (out: array<byte>)
      requires Complete(str, lheads, lhsize)
      ensures fresh(out) && out[..] == Spliced(str, lheads, 0)
    {
      SplicedLength(str, lheads, 0);
      ghost var all := Spliced(str, lheads, 0);
      out := new byte[Size()](i => 0);
      var strpos: nat, pos: nat := 0, 0;
      for i := 0 to |lheads|
        invariant Placed(str, lheads[i..], strpos) && pos <= out.Length
        invariant all == out[..pos] + Spliced(str, lheads[i..], strpos)
      {
        ghost var segment := SplicedNext(str, lheads, i, strpos, out[..pos]);
        pos := PutSegment(out, pos, str[strpos..lheads[i].offset], lheads[i].size);
        strpos := lheads[i].offset;
      }
      assert lheads[|lheads|..] == [];
      Copy(out, pos, str[strpos..]);
      assert out[..] == out[..out.Length];
    }

    /** Sends the output piece by piece, stopping at the first write that fails. */
    method ToWriter(w: Sink) returns (ok: bool)
      requires Valid() && Complete(str, lheads, lhsize) && w.Valid()
      modifies w, sizebuf
      ensures w.Valid()
      ensures ok ==> w.got == old(w.got) + Spliced(str, lheads, 0)
      ensures !ok ==> |w.got| == w.limit && old(w.got) <= w.got < old(w.got) + Spliced(str, lheads, 0)
    {
      ghost var all := Spliced(str, lheads, 0);
      ghost var sent: seq<byte> := [];
      var strpos: nat := 0;
      for i := 0 to |lheads|
        invariant w.Valid() && Placed(str, lheads[i..], strpos)
        invariant all == sent + Spliced(str, lheads[i..], strpos)
        invariant w.got == old(w.got) + sent
      {
        ghost var segment := SplicedNext(str, lheads, i, strpos, sent);
        ok := SendSegment(w, str[strpos..lheads[i].offset], lheads[i].size);
        if !ok {
          Cut(old(w.got), sent, segment, Spliced(str, lheads[i + 1..], lheads[i].offset), w.got);
          return;
        }
        Regroup(old(w.got), sent, segment, []);
        strpos := lheads[i].offset;
        sent := sent + segment;
      }
      assert lheads[|lheads|..] == [];
      ok := true;
      Regroup(old(w.got), sent, str[strpos..], []);
      if strpos < |str| {
        var _, fine := w.Write(str[strpos..]);
        ok := fine;
      }
    }

    /** Sends the string data before a header, if any, and the header. */
    method SendSegment(w: Sink, data: seq<byte>, size: u64) returns (ok: bool)
      requires Valid() && w.Valid()
      modifies w, sizebuf
      ensures w.Valid()
      ensures ok ==> w.got == old(w.got) + (data + ListHead(size))
      ensures !ok ==> |w.got| == w.limit && old(w.got) <= w.got < old(w.got) + (data + ListHead(size))
    {
      if |data| > 0 {
        var _, fine := w.Write(data);
        if !fine {
          Cut(old(w.got), [], data, ListHead(size), w.got);
          return false;
        }
      }
      assert w.got == old(w.got) + data;
      var enc := EncodeHead(size);
      var _, fine := w.Write(enc);
      ok := fine;
      Regroup(old(w.got), data, ListHead(size), []);
      if !ok {
        Cut(old(w.got), data, ListHead(size), [], w.got);
      }
    }

    /** The bytes of a list header, put together in the scratch buffer. */
    method EncodeHead(size: u64) returns (enc: seq<byte>)
      requires Valid()
      modifies sizebuf
      ensures enc == ListHead(size)
    {
      U64Length(size);
      var n := PutHead(sizebuf, 0, 0xC0, 0xF7, size);
      enc := sizebuf[..n];
    }
  }

  /** One step of every output loop: the string data up to the next mark, and that mark's header. */
  lemma SplicedNext(str: seq<byte>, marks: seq<ListMark>, i: nat, strpos: nat, done: seq<byte>)
    returns (segment: seq<byte>)
    requires i < |marks| && Placed(str, marks[i..], strpos)
    ensures strpos <= marks[i].offset <= |str| && Placed(str, marks[i + 1..], marks[i].offset)
    ensures segment == str[strpos..marks[i].offset] + ListHead(marks[i].size)
    ensures done + Spliced(str, marks[i..], strpos)
         == done + segment + Spliced(str, marks[i + 1..], marks[i].offset)
  {
    assert marks[i..][0] == marks[i] && marks[i..][1..] == marks[i + 1..];
    segment := str[strpos..marks[i].offset] + ListHead(marks[i].size);
    Regroup(done, segment, Spliced(str, marks[i + 1..], marks[i].offset), []);
  }

  method PutSegment(out: array<byte>, pos: nat, data: seq<byte>, size: u64) returns (next: nat)
    requires pos + |data| + HeadSize(size) <= out.Length
    modifies out
    ensures next == pos + |data| + HeadSize(size)
    ensures out[..next] == old(out[..pos]) + (data + ListHead(size))
  {
    Copy(out, pos, data);
    ghost var copied := out[..pos + |data|];
    var n := PutHead(out, pos + |data|, 0xC0, 0xF7, size);
    next := pos + |data| + n;
    assert out[..pos + |data|] == copied;
    assert out[..next] == out[..pos + |data|] + out[pos + |data|..next];
  }

  /** A write that stops within one segment stops within the whole output. */
  lemma Cut(before: seq<byte>, sent: seq<byte>, segment: seq<byte>, after: seq<byte>, got: seq<byte>)
    requires before + sent <= got < before + sent + segment
    ensures before <= got < before + (sent + segment + after)
    ensures sent == [] ==> before <= got < before + (segment + after)
    ensures after == [] ==> before <= got < before + (sent + segment)
  {
    assert before + (sent + segment + after) == before + sent + segment + after;
    assert sent == [] ==> sent + segment + after == segment + after;
    assert after == [] ==> sent + segment + after == sent + segment;
  }

  /** An io.Writer that takes `limit` bytes in all and fails from then on. */
  class Sink {
    var got: seq<byte>
    const limit: nat

    ghost predicate Valid()
      reads this
    {
      |got| <= limit
    }

    constructor (limit: nat)
      ensures Valid() && got == [] && this.limit == limit
    {
      this.limit := limit;
      got := [];
    }

    method Write(p: seq<byte>) returns (n: nat, ok: bool)
      requires Valid()
      modifies this
      ensures Valid() && n <= |p| && (ok <==> n == |p|)
      ensures got == old(got) + p[..n]
      ensures !ok ==> |got| == limit
    {
      n := if |p| <= limit - |got| then |p| else limit - |got|;
      got := got + p[..n];
      ok := n == |p|;
    }
  }

  method Copy(dst: array<byte>, at: nat, src: seq<byte>)
    requires at + |src| <= dst.Length
    modifies dst
    ensures dst[..at + |src|] == old(dst[..at]) + src
    ensures dst[at + |src|..] == old(dst[at + |src|..])
  {
    forall i | 0 <= i < |src| {
      dst[at + i] := src[i];
    }
  }
}
