/** Typed decoding: the decoders makeDecoder puts together for a type, run on a stream.

    Each is proved equal to the reference parser of `Codec`, so the round-trip and canonicity laws
    proved there are laws of this code.
 */
module Decoder {
  import opened BigEndian
  import opened Header
  import opened Wrappers
  import opened Codec
  import opened Stream
  import Iteration

  // ---------------------------------------------------------------- moving through a list

  /** Where a successful call leads. */
  lemma AfterOk(t: Type, armed: bool, p: Place, p': Place, armed': Option<bool>, err: Error, v: Value)
    requires p.Sound() && p.Exact() && Agrees(p, Parse(t, armed, p.Window()), p', armed', err, v)
    requires Parse(t, armed, p.Window()).Ok?
    ensures p'.Sound() && p'.Exact() && p'.Window() == Parse(t, armed, p.Window()).rest
    ensures |p'.input| <= |p.input| && (!armed ==> |p'.input| < |p.input|)
    ensures p' == p.Skip(|p.Window()| - |p'.Window()|)
  {
    hide Parse;
    var rest := Parse(t, armed, p.Window()).rest;
    WindowHas(p, |p.Window()| - |rest|);
  }

  /** p is reached from q by reading within the same list. */
  ghost predicate Reached(q: Place, p: Place)
  {
    && q.Sound() && q.Exact() && p.Sound() && p.Exact()
    && |p.Window()| <= |q.Window()| && q.Has(|q.Window()| - |p.Window()|)
    && p == q.Skip(|q.Window()| - |p.Window()|)
  }

  lemma ReachedSelf(q: Place)
    requires q.Sound() && q.Exact()
    ensures Reached(q, q)
  {
    WindowHas(q, 0);
  }

  lemma ReachedThen(q: Place, p: Place, p': Place)
    requires Reached(q, p) && Reached(p, p')
    ensures Reached(q, p')
  {
    SkipTwice(q, |q.Window()| - |p.Window()|, |p.Window()| - |p'.Window()|);
  }

  /** An opened list: its content is the window. */
  lemma OpenedList(p: Place, q: Place, armed: Option<bool>, n: u64)
    requires p.Sound() && p.Exact() && Opened(p, q, armed, n, Nil)
    ensures var w, h := p.Window(), ReadHeader(p.Window()).value;
            && w != [] && ReadHeader(w).Some? && h.kind == List && n == h.size && armed == Some(false)
            && q.Sound() && q.Exact() && q.stack.InList? && q.Window() == w[h.tag..h.tag + h.size]
            && |q.input| < |p.input|
  {
    hide ReadTag;
    var w := p.Window();
    var h := ReadHeader(w).value;
    WindowHas(p, h.tag);
    WindowHas(p, h.tag + h.size);
    PushKeeps(p.Skip(h.tag).stack, n);
    assert q.Window() == p.Skip(h.tag).input[..n];
    assert p.Skip(h.tag).input[..n] == p.input[h.tag..h.tag + n];
    assert w[h.tag..h.tag + n] == p.input[h.tag..h.tag + n];
  }

  /** Opening a list of n bytes, reading it and ending it is the same as skipping n bytes. */
  lemma ListIsSkipped(x: Place, n: u64)
    requires x.Sound() && x.Has(n)
    ensures var q := x.(stack := InList(0, n, x.stack));
            && q.Sound() && q.Has(n) && x.stack.Fits(n)
            && q.Skip(n).(stack := x.stack.Advance(n)) == x.Skip(n)
  {
    PushKeeps(x.stack, n);
  }

  /** Ending a list whose content was read leads behind the whole list. */
  lemma ClosedList(p: Place, q: Place, armed: Option<bool>, n: u64, q': Place)
    requires p.Sound() && p.Exact() && Opened(p, q, armed, n, Nil) && Reached(q, q')
    ensures q'.stack.InList? && (q'.stack.Unread() == 0 <==> q'.Window() == [])
    ensures q'.Window() == [] ==>
      var h := ReadHeader(p.Window()).value;
      && p.Has(h.tag + h.size) && q'.stack.outer.Fits(q'.stack.size)
      && q'.(stack := q'.stack.outer.Advance(q'.stack.size)) == p.Skip(h.tag + h.size)
  {
    hide ReadHeader, Place.Sound;
    var h := ReadHeader(p.Window()).value;
    OpenedList(p, q, armed, n);
    WindowHas(q', 0);
    WindowHas(p, h.tag + h.size);
    SkipTwice(p, h.tag, h.size);
    ListIsSkipped(p.Skip(h.tag), n);
  }

  // ---------------------------------------------------------------- decoders

  /** Decodes one value of type t. */
  method Decode(s: Stream, t: Type) returns (v: Value, err: Error)
    requires s.Valid() && s.Now().Exact() && s.Ahead().Armed().Some?
    modifies s
    ensures s.Valid()
    ensures Agrees(old(s.Now()), Parse(t, old(s.Ahead()).Armed().value, old(s.Now()).Window()),
                   s.Now(), s.Ahead().Armed(), err, v)
    decreases |s.input|, 1
  {
    hide Agrees, Parse;
    match t {
      case TUint(width) =>
        var n;
        n, err := s.Uint(width);
        v := Num(n);
      case TBool =>
        var b;
        b, err := s.Bool();
        v := Flag(b);
      case TBytes =>
        var b;
        b, err := s.Bytes();
        v := Blob(b);
      case TRaw =>
        var b;
        b, err := s.Raw();
        v := Blob(b);
      case TBigInt =>
        v, err := DecodeBigInt(s);
      case TByteArray(n) =>
        v, err := DecodeByteArray(s, n);
      case TAny =>
        v, err := DecodeAny(s);
      case _ =>
        v, err := DecodeList(s, t);
    }
  }

  method DecodeBigInt(s: Stream) returns (v: Value, err: Error)
    requires s.Valid() && s.Now().Exact() && s.Ahead().Armed().Some?
    modifies s
    ensures s.Valid()
    ensures Agrees(old(s.Now()), Parse(TBigInt, old(s.Ahead()).Armed().value, old(s.Now()).Window()),
                   s.Now(), s.Ahead().Armed(), err, v)
  {
    hide Agrees, Parse;
    ghost var p, armed := s.Now(), s.Ahead().Armed().value;
    var b, e := s.Bytes();
    v, err := Num(Number(b)), e;
    if e == Nil && |b| > 0 && b[0] == 0 {
      err := CanonInt;
    }
    BigIntAgrees(p, armed, s.Now(), s.Ahead().Armed(), b, e, err);
  }

  lemma BigIntAgrees(p: Place, armed: bool, q: Place, armed': Option<bool>, b: seq<byte>, e: Error, err: Error)
    requires p.Sound() && p.Exact() && Agrees(p, Parse(TBytes, armed, p.Window()), q, armed', e, Blob(b))
    requires err == if e == Nil && !NoLeadingZero(b) then CanonInt else e
    ensures Agrees(p, Parse(TBigInt, armed, p.Window()), q, armed', err, Num(Number(b)))
  {
    hide Parse, Number, NoLeadingZero, Place.Window, Place.Sound, Place.Has, Place.Skip;
    BigIntIsBytes(armed, p.Window());
  }

  /** A big integer is a string without leading zeros. */
  lemma BigIntIsBytes(armed: bool, w: seq<byte>)
    ensures match Parse(TBytes, armed, w)
            case Ok(v, again, rest) =>
              v.Blob? && Parse(TBigInt, armed, w) ==
                if NoLeadingZero(v.bs) then Ok(Num(Number(v.bs)), again, rest) else Err
            case other => Parse(TBigInt, armed, w) == other
  {
    if !armed && w != [] && ReadHeader(w).Some? {
      hide Parse, ReadHeader, Number, NoLeadingZero;
      ParseUnfolds(TBytes, w);
      ParseUnfolds(TBigInt, w);
    }
  }

  method DecodeByteArray(s: Stream, n: nat) returns (v: Value, err: Error)
    requires s.Valid() && s.Now().Exact() && s.Ahead().Armed().Some?
    modifies s
    ensures s.Valid()
    ensures Agrees(old(s.Now()), Parse(TByteArray(n), old(s.Ahead()).Armed().value, old(s.Now()).Window()),
                   s.Now(), s.Ahead().Armed(), err, v)
  {
    hide Agrees, Parse, Looked, ReadsScalar;
    ghost var p, a := s.Now(), s.Ahead();
    v := Blob([]);
    var k, size;
    k, size, err := s.NextKind();
    ghost var q, b := s.Now(), s.byteval;
    if err == Nil {
      v, err := ByteArrayBehind(s, n, k);
      ScalarRefines(TByteArray(n), p, a, q, k, size, b, s.Now(), s.Ahead(), err, v);
    } else {
      LookFails(TByteArray(n), p, q, k, size, b, err, s.Ahead().Armed(), v);
    }
  }

  /** A single zero byte is stored although reading it as an integer fails, and stays ahead. */
  method ByteArrayBehind(s: Stream, n: nat, k: Kind) returns (v: Value, err: Error)
    requires s.Valid() && s.kind == Some(k) && s.kinderr == Nil
    modifies s
    ensures s.Valid()
    ensures ReadsScalar(TByteArray(n), old(s.Now()), k, old(s.size), old(s.byteval), s.Now(), s.Ahead().Armed(), err, v)
  {
    match k {
      case Byte => v, err := ByteArrayOfByte(s, n);
      case String => v, err := ByteArrayOfString(s, n);
      case List => v, err := Blob([]), ExpectedString;
    }
  }

  method ByteArrayOfByte(s: Stream, n: nat) returns (v: Value, err: Error)
    requires s.Valid() && s.kind == Some(Byte) && s.kinderr == Nil
    modifies s
    ensures s.Valid()
    ensures ReadsScalar(TByteArray(n), old(s.Now()), Byte, old(s.size), old(s.byteval),
                        s.Now(), s.Ahead().Armed(), err, v)
  {
    hide Parse, Agrees, Refines;
    v := Blob([]);
    if n == 0 {
      err := TooLong;
    } else if n > 1 {
      err := TooShort;
    } else {
      ghost var b := s.byteval;
      var bv, _ := s.Uint(8);
      assert Number([b]) == b;
      v, err := Blob([bv % 0x100]), Nil;
    }
  }

  method ByteArrayOfString(s: Stream, n: nat) returns (v: Value, err: Error)
    requires s.Valid() && s.kind == Some(String) && s.kinderr == Nil
    modifies s
    ensures s.Valid()
    ensures ReadsScalar(TByteArray(n), old(s.Now()), String, old(s.size), old(s.byteval),
                        s.Now(), s.Ahead().Armed(), err, v)
  {
    v := Blob([]);
    var size := s.size;
    if n < size {
      err := TooLong;
    } else if n > size {
      err := TooShort;
    } else {
      var content;
      content, err := s.ReadFull(n);
      v := Blob(content);
      if err == Nil && n == 1 && content[0] < 0x80 { err := CanonSize; }
    }
  }

  /** A list becomes a list of anything, everything else a byte string. */
  method DecodeAny(s: Stream) returns (v: Value, err: Error)
    requires s.Valid() && s.Now().Exact() && s.Ahead().Armed().Some?
    modifies s
    ensures s.Valid()
    ensures Agrees(old(s.Now()), Parse(TAny, old(s.Ahead()).Armed().value, old(s.Now()).Window()),
                   s.Now(), s.Ahead().Armed(), err, v)
    decreases |s.input|, 0
  {
    hide Agrees, Parse, ReadsScalar, ReadTag;
    ghost var p, a := s.Now(), s.Ahead();
    v := Blob([]);
    var k, n;
    k, n, err := s.NextKind();
    ghost var q, b := s.Now(), s.byteval;
    if err != Nil {
      LookFails(TAny, p, q, k, n, b, err, s.Ahead().Armed(), v);
    } else if k == List {
      n, err := s.List();
      v, err := DecodeBody(s, TAny, n, p);
    } else {
      var content;
      content, err := s.Bytes();
      v := Blob(content);
      AnyIsBytes(q, k, n, b, s.Now(), s.Ahead().Armed(), err, v);
      ScalarRefines(TAny, p, a, q, k, n, b, s.Now(), s.Ahead(), err, v);
    }
  }

  lemma AnyIsBytes(q: Place, k: Kind, n: nat, b: byte, q': Place, armed: Option<bool>, err: Error, v: Value)
    requires q.Sound() && ReadsScalar(TBytes, q, k, n, b, q', armed, err, v)
    ensures ReadsScalar(TAny, q, k, n, b, q', armed, err, v)
  {
  }

  /** A slice, array or struct: opens the list ahead. */
  method DecodeList(s: Stream, t: Type) returns (v: Value, err: Error)
    requires s.Valid() && s.Now().Exact() && s.Ahead().Armed().Some? && IsList(t) && !t.TAny?
    modifies s
    ensures s.Valid()
    ensures Agrees(old(s.Now()), Parse(t, old(s.Ahead()).Armed().value, old(s.Now()).Window()),
                   s.Now(), s.Ahead().Armed(), err, v)
    decreases |s.input|, 0
  {
    hide Agrees, Parse, ReadTag;
    ghost var p, a := s.Now(), s.Ahead();
    v := Items([]);
    var n;
    n, err := s.List();
    if err == Nil {
      v, err := DecodeBody(s, t, n, p);
    } else {
      ListFails(t, p, a.Armed().value, s.Now(), s.Ahead().Armed(), n, err, v);
    }
  }

  lemma ListFails(t: Type, p: Place, armed: bool, q: Place, armed': Option<bool>, n: u64, err: Error, v: Value)
    requires p.Sound() && p.Exact() && IsList(t) && !t.TAny? && err != Nil
    requires if armed then Failed(err) else Opened(p, q, armed', n, err)
    ensures Agrees(p, Parse(t, armed, p.Window()), q, armed', err, v)
  {
  }

  /** The items of an opened list and its end. */
  method DecodeBody(s: Stream, t: Type, n: u64, ghost p: Place) returns (v: Value, err: Error)
    requires s.Valid() && p.Sound() && p.Exact() && IsList(t) && s.kind == None
    requires Opened(p, s.Now(), Some(false), n, Nil) && s.Now().Exact()
    modifies s
    ensures s.Valid()
    ensures Agrees(p, Parse(t, false, p.Window()), s.Now(), s.Ahead().Armed(), err, v)
    decreases |s.input|, 4
  {
    hide Agrees, Parse, Opened, ReadTag, Reached, ParseItems;
    ghost var q := s.Now();
    OpenedList(p, q, Some(false), n);
    var vs;
    vs, err := DecodeItems(s, LayoutOf(t));
    v := Items(vs);
    ghost var q', itemsErr := s.Now(), err;
    if err == Nil {
      ClosedList(p, q, Some(false), n, q');
      err := s.ListEnd();
    }
    ListAgrees(t, p, q, n, vs, q', itemsErr, s.Now(), s.Ahead().Armed(), err);
  }

  /** What reading the items of a list of that layout came to. Left-over content is found at the list's end. */
  ghost predicate ReadsItems(lay: Layout, armed: bool, q: Place, q': Place, vs: seq<Value>, err: Error)
    requires q.Sound() && q.Exact()
  {
    var r := ParseItems(lay, armed, q.Window());
    if err == Nil then Reached(q, q') && r == if q'.Window() == [] then Found(vs) else Bad
    else if err == Hangs then r == Endless
    else Failed(err) && r == Bad
  }

  lemma ListAgrees(t: Type, p: Place, q: Place, n: u64, vs: seq<Value>, q': Place, itemsErr: Error,
                   p': Place, armed: Option<bool>, err: Error)
    requires p.Sound() && p.Exact() && IsList(t) && Opened(p, q, Some(false), n, Nil) && q.Sound() && q.Exact()
    requires ReadsItems(LayoutOf(t), false, q, q', vs, itemsErr)
    requires itemsErr != Nil ==> err == itemsErr
    requires itemsErr == Nil ==> q'.stack.InList? && err == (if q'.stack.Unread() != 0 then NotAtEOL else Nil)
    requires itemsErr == Nil && err == Nil ==>
      && armed == Some(false) && q'.stack.outer.Fits(q'.stack.size)
      && p' == q'.(stack := q'.stack.outer.Advance(q'.stack.size))
    ensures Agrees(p, Parse(t, false, p.Window()), p', armed, err, Items(vs))
  {
    hide ParseItems, ReadHeader, Parse, Reached, Opened, Place.Sound, Place.Window, Place.Skip, Place.Has;
    OpenedList(p, q, Some(false), n);
    Iteration.ParseIsAsList(t, p.Window());
    if itemsErr == Nil { ClosedList(p, q, Some(false), n, q'); }
  }

  /** The row of a list, then the items of its tail. */
  method DecodeItems(s: Stream, lay: Layout) returns (vs: seq<Value>, err: Error)
    requires s.Valid() && s.Now().Exact() && s.kind == None && s.stack.InList?
    modifies s
    ensures s.Valid()
    ensures ReadsItems(lay, false, old(s.Now()), s.Now(), vs, err)
    decreases |s.input|, 3
  {
    hide Parse, ParseItems, Reached;
    ghost var q := s.Now();
    vs, err := DecodeRow(s, lay.row, lay.tail);
    if err == Nil && lay.tail.Some? {
      ghost var p := s.Now();
      var more;
      more, err := DecodeElems(s, lay.tail.value);
      vs := vs + more;
      if err == Nil { ReachedThen(q, p, s.Now()); }
    } else if err == Nil {
      RowEnds(lay.tail, s.Ahead().Armed().value, s.Now().Window());
      assert vs + [] == vs;
    }
  }

  lemma RowEnds(tail: Option<Type>, armed: bool, w: seq<byte>)
    ensures tail.None? ==> ParseItems(Layout([], tail), armed, w) == if w == [] then Found([]) else Bad
  {
  }

  /** What one call in an item loop came to. */
  lemma ItemStep(lay: Layout, armed: bool, p: Place, p': Place, armed': Option<bool>, err: Error, v: Value)
    requires lay.More() && p.Sound() && p.Exact() && p.stack.InList?
    requires Agrees(p, Parse(lay.Head(), armed, p.Window()), p', armed', err, v)
    ensures var r := ParseItems(lay, armed, p.Window());
            if err == Nil then
              && Reached(p, p') && armed'.Some? && p'.stack.InList?
              && |p'.input| <= |p.input| && (!armed ==> |p'.input| < |p.input|)
              && r == if armed && armed'.value && lay.row == [] then Endless
                      else Prepend([v], ParseItems(lay.Rest(), armed'.value, p'.Window()))
            else if err == EOL then
              p' == p && p.Window() == [] && armed' == Some(false) && r == if lay.row == [] then Found([]) else Bad
            else if err == Hangs then r == Endless
            else Failed(err) && r == Bad
  {
    hide Parse, ParseItems;
    ParseItemsStep(lay, armed, p.Window());
    if Parse(lay.Head(), armed, p.Window()).Ok? {
      AfterOk(lay.Head(), armed, p, p', armed', err, v);
    }
  }

  /** The elements of an array or the fields of a struct, one after the other. */
  method DecodeRow(s: Stream, row: seq<Type>, ghost tail: Option<Type>) returns (vs: seq<Value>, err: Error)
    requires s.Valid() && s.Now().Exact() && s.kind == None && s.stack.InList?
    modifies s
    ensures s.Valid()
    ensures var r := ParseItems(Layout(row, tail), false, old(s.Now()).Window());
            if err == Nil then
              && Reached(old(s.Now()), s.Now()) && s.Ahead().Armed().Some? && s.stack.InList?
              && s.Now().Exact() && |s.input| <= |old(s.input)|
              && r == Prepend(vs, ParseItems(Layout([], tail), s.Ahead().Armed().value, s.Now().Window()))
            else if err == Hangs then r == Endless
            else Failed(err) && r == Bad
    decreases |s.input|, 2
  {
    hide Agrees, Parse, ParseItems, Reached;
    ghost var q := s.Now();
    ghost var all := ParseItems(Layout(row, tail), false, q.Window());
    vs, err := [], Nil;
    ReachedSelf(q);
    assert row[0..] == row;
    for i := 0 to |row|
      invariant s.Valid() && s.stack.InList? && s.Ahead().Armed().Some? && |s.input| <= |q.input| && err == Nil
      invariant Reached(q, s.Now()) && s.Now().Exact()
      invariant all == Prepend(vs, ParseItems(Layout(row[i..], tail), s.Ahead().Armed().value, s.Now().Window()))
    {
      ghost var p, armed, lay := s.Now(), s.Ahead().Armed().value, Layout(row[i..], tail);
      var v;
      v, err := Decode(s, row[i]);
      ItemStep(lay, armed, p, s.Now(), s.Ahead().Armed(), err, v);
      if err == EOL { return vs, TooFew; }
      if err != Nil { return; }
      ReachedThen(q, p, s.Now());
      PrependStep(vs, v, ParseItems(lay.Rest(), s.Ahead().Armed().value, s.Now().Window()));
      assert lay.Rest() == Layout(row[i + 1..], tail);
      vs := vs + [v];
    }
    assert row[|row|..] == [];
  }

  /** The elements of a slice, until the end of the list. A zero `[1]byte` that stays ahead is read for ever; where the
      code would go on for ever this returns Hangs, which it does exactly when no number of iterations is enough. */
  method DecodeElems(s: Stream, elem: Type) returns (vs: seq<Value>, err: Error)
    requires s.Valid() && s.Now().Exact() && s.Ahead().Armed().Some? && s.stack.InList?
    modifies s
    ensures s.Valid()
    ensures var r := ParseItems(Layout([], Some(elem)), old(s.Ahead()).Armed().value, old(s.Now()).Window());
            if err == Nil then Reached(old(s.Now()), s.Now()) && s.Now().Window() == [] && r == Found(vs)
            else if err == Hangs then r == Endless
            else Failed(err) && r == Bad
    ensures err == Hangs <==>
            Iteration.Unending(Layout([], Some(elem)), old(s.Ahead()).Armed().value, old(s.Now()).Window())
    decreases |s.input|, 2
  {
    hide Agrees, Parse, ParseItems, Reached, Iteration.Unending;
    ghost var q, lay := s.Now(), Layout([], Some(elem));
    Iteration.EndlessIffUnending(lay, s.Ahead().Armed().value, q.Window());
    ghost var all := ParseItems(lay, s.Ahead().Armed().value, q.Window());
    vs, err := [], Nil;
    ReachedSelf(q);
    while true
      invariant s.Valid() && s.stack.InList? && s.Ahead().Armed().Some? && |s.input| <= |q.input|
      invariant Reached(q, s.Now()) && s.Now().Exact()
      invariant all == Prepend(vs, ParseItems(lay, s.Ahead().Armed().value, s.Now().Window()))
      decreases |s.input|, s.Ahead().Armed() == Some(true)
    {
      ghost var p, armed := s.Now(), s.Ahead().Armed().value;
      var stuck := s.kind.Some?;
      var v;
      v, err := Decode(s, elem);
      ItemStep(lay, armed, p, s.Now(), s.Ahead().Armed(), err, v);
      if err == EOL { return vs, Nil; }
      if err != Nil { return; }
      if stuck && s.kind.Some? { return vs, Hangs; }
      ReachedThen(q, p, s.Now());
      PrependStep(vs, v, ParseItems(lay, s.Ahead().Armed().value, s.Now().Window()));
      vs := vs + [v];
    }
  }

  // ---------------------------------------------------------------- entry point

  /** Decodes b into a value of type t, on a stream taken from the pool in whatever state it was left. */
  method DecodeBytes(s: Stream, b: seq<byte>, t: Type) returns (v: Value, err: Error)
    requires |b| < U64_LIMIT
    modifies s
    ensures match DecodeSpec(t, b)
            case Value(u) => err == Nil && v == u
            case Diverges => err == Hangs
            case Invalid => Failed(err)
    ensures err == Hangs <==> !Iteration.EndsOn(t, b)
  {
    hide Parse;
    Iteration.DivergesIffUnfinished(t, b);
    s.Reset(b, |b|, true, false);
    v, err := Decode(s, t);
    if err == Nil && s.input != [] {
      err := MoreThanOneValue;
    }
  }
}
