/** The streaming decoder: a stack of open lists, a cached look-ahead, and an input limit.

    `Valid` is the invariant every call keeps, failed calls included: list positions stay within list
    sizes, every open list fits into the unread part of the list around it, and on a limited stream the
    bytes owed to open lists never exceed the remaining input. All sizes are 64-bit unsigned, so the
    declared field types make every addition and subtraction prove that it does not wrap.

    On a stream whose limit is its input length (`Exact`, the case of DecodeBytes) every call is
    also proved equal to the reference parser on the unread part of the innermost list.
 */
module Stream {
  import opened BigEndian
  import opened Header
  import opened Wrappers
  import opened Codec

  datatype Error =
    | Nil | EOL | EOF | UnexpectedEOF | ExpectedString | ExpectedList | CanonInt | CanonSize
    | ElemTooLarge | ValueTooLarge | NotInList | NotAtEOL | UintOverflow | BadBool
    | TooLong | TooShort | TooFew | MoreThanOneValue
    | Panic      // the Go code panics
    | Hangs      // the Go code does not return

  // ---------------------------------------------------------------- the list stack

  /** The open lists, innermost first: bytes read in the list so far, and its size. */
  datatype Lists = NoList | InList(pos: u64, size: u64, outer: Lists)
  {
    /** Unread bytes of the innermost list. */
    function Unread(): int
      requires InList?
    {
      size - pos
    }

    /** Positions stay within sizes, and every list fits into the unread part of the one around it. */
    predicate Nested()
    {
      InList? ==> pos <= size && outer.Nested() && (outer.InList? ==> size <= outer.Unread())
    }

    /** Unread bytes of the outermost list, those read in inner lists taken off. */
    function Owed(): int
    {
      match this
      case NoList => 0
      case InList(pos, size, outer) => if outer.NoList? then size - pos else outer.Owed() - pos
    }

    predicate Fits(n: nat) { InList? ==> pos + n < U64_LIMIT }

    /** After n bytes of the innermost list were read. */
    function Advance(n: nat): Lists
      requires Fits(n)
    {
      if NoList? then this else this.(pos := pos + n)
    }
  }

  lemma {:induction false} OwedCovers(s: Lists)
    requires s.InList? && s.Nested()
    ensures s.Owed() >= s.Unread() >= 0
  {
    if s.outer.InList? {
      OwedCovers(s.outer);
    }
  }

  /** Opening a list that fits, and ending one that is used up, keep what is owed. */
  lemma PushKeeps(s: Lists, size: u64)
    requires s.Nested() && (s.InList? ==> size <= s.Unread())
    ensures var pushed := InList(0, size, s);
            pushed.Nested() && pushed.Owed() == if s.NoList? then size else s.Owed()
  {
  }

  lemma PopKeeps(s: Lists)
    requires s.InList? && s.Nested() && s.Unread() == 0
    ensures s.outer.Fits(s.size)
    ensures var popped := s.outer.Advance(s.size);
            popped.Nested() && (popped.InList? ==> popped.Owed() == s.Owed())
  {
  }

  // ---------------------------------------------------------------- where a stream stands

  /** The input still to be read, the open lists, the limit, and whether the reader may report the end of its data
      together with its last bytes. */
  datatype Place = Place(input: seq<byte>, stack: Lists, remaining: u64, limited: bool, eager: bool)
  {
    /** The invariant: lists are nested, and a limit covers what is owed to them. */
    predicate Sound() { stack.Nested() && (limited && stack.InList? ==> stack.Owed() <= remaining) }

    /** The limit is exactly the input that is left, and the reader reports the end only when nothing is left. */
    predicate Exact() { limited && remaining == |input| && !eager }

    /** n more bytes lie within the innermost list, or within the limit. */
    predicate Allows(n: int)
    {
      if stack.InList? then n <= stack.Unread() else limited ==> n <= remaining
    }

    /** n bytes are allowed, and there. */
    predicate Has(n: int) { Allows(n) && n <= |input| }

    /** They can be read for sure: an eager reader may spoil the reading of its last bytes. */
    predicate Sure(n: int) { Has(n) && (eager && n > 0 ==> n < |input|) }

    function Skip(n: nat): (r: Place)
      requires Sound() && Has(n)
      ensures r.Sound() && (Exact() ==> r.Exact()) && (n == 0 ==> r == this)
    {
      assert limited ==> n <= remaining by { if stack.InList? { OwedCovers(stack); } }
      Place(input[n..], stack.Advance(n), if limited then remaining - n else remaining, limited, eager)
    }

    /** On an exact stream: the unread part of the innermost list, or of the input. */
    function Window(): seq<byte>
      requires Sound() && Exact()
    {
      if stack.NoList? then input
      else
        OwedCovers(stack);
        input[..stack.Unread()]
    }
  }

  /** On an exact stream the window is exactly what can be read. */
  lemma WindowHas(p: Place, n: nat)
    requires p.Sound() && p.Exact()
    ensures p.Window() <= p.input
    ensures (p.Has(n) <==> n <= |p.Window()|) && (p.Allows(n) <==> n <= |p.Window()|)
    ensures p.Has(n) ==> p.Skip(n).Window() == p.Window()[n..] && p.input[..n] == p.Window()[..n]
  {
    if p.stack.InList? { OwedCovers(p.stack); }
  }

  lemma SkipTwice(p: Place, m: nat, n: nat)
    requires p.Sound() && p.Has(m)
    ensures p.Skip(m).Has(n) <==> p.Has(m + n)
    ensures p.Has(m + n) ==> p.Skip(m).Skip(n) == p.Skip(m + n)
  {
    if p.stack.InList? { OwedCovers(p.stack); }
  }

  /** Between p and p' no more input was taken than the limit was charged for. */
  predicate Spent(p: Place, p': Place)
  {
    && |p'.input| <= |p.input| && p'.limited == p.limited
    && (p.limited ==> |p.input| - |p'.input| <= p.remaining - p'.remaining)
  }

  /** A look at the value ahead, once taken: its kind and size, or an error. `taken` are the bytes
      the look took from the input. */
  datatype Look = Look(kind: Option<Kind>, size: u64, byteval: byte, err: Error, ghost taken: seq<byte>)
  {
    /** A value that was seen fits, and its header is the one the encoder would write. */
    ghost predicate Fits(p: Place)
    {
      kind.Some? && err == Nil ==>
        && p.Allows(size)
        && (taken != [] ==> taken == if kind.value == Byte then [byteval] else HeadOf(kind.value, size))
    }

    /** Some(false): nothing was looked at. Some(true): the look holds a single zero byte. */
    function Armed(): Option<bool>
    {
      if kind.None? then Some(false)
      else if kind.value == Byte && byteval == 0 && err == Nil then Some(true) else None
    }
  }

  predicate Failed(err: Error) { err != Nil && err != EOL && err != Hangs && err != Panic }

  /** The outcome of a call is the one of the reference parser. At the end of a list the stream stays
      put; at the end of the whole input there is an error. */
  ghost predicate Agrees(p: Place, r: Parsed, p': Place, armed: Option<bool>, err: Error, v: Value)
    requires p.Sound() && p.Exact()
  {
    match r
    case Ok(v', again, rest) =>
      && err == Nil && v == v' && armed == Some(again)
      && var used := |p.Window()| - |rest|;
      && used >= 0 && p.Has(used) && p' == p.Skip(used)
    case Eol => if p.stack.NoList? then Failed(err) else err == EOL && p' == p && armed == Some(false)
    case Err => Failed(err)
    case Loop => err == Hangs
  }

  /** How many bytes a tag takes; a single byte is its own tag here. */
  function TagLength(input: seq<byte>): (n: nat)
    requires HasTag(input)
    ensures 1 <= n <= |input|
  {
    if ReadTag(input).value.kind == Byte then 1 else ReadTag(input).value.tag
  }

  predicate HasTag(input: seq<byte>) { input != [] && ReadTag(input).Some? }

  /** The input starts with a tag of kind k, content size n and the given length. */
  predicate TagAt(input: seq<byte>, k: Kind, n: nat, length: nat)
  {
    && HasTag(input) && length == TagLength(input)
    && k == ReadTag(input).value.kind && n == if k == Byte then 0 else ReadTag(input).value.size
  }

  /** What a long tag amounts to in terms of the bytes behind its first byte. */
  lemma LongTag(start: seq<byte>, len: nat)
    requires start != [] && 1 <= len == TagOf(start[0]).len
    ensures var x := start[1..];
            && (HasTag(start) <==> |x| >= len && LongNumber(x[..len]))
            && (HasTag(start) ==> TagAt(start, TagOf(start[0]).kind, Number(x[..len]), 1 + len))
  {
    if |start| >= 1 + len {
      assert start[1..][..len] == start[1..1 + len];
    }
  }

  lemma ShortTag(start: seq<byte>)
    requires start != [] && TagOf(start[0]).len == 0
    ensures TagAt(start, TagOf(start[0]).kind, TagOf(start[0]).size, 1)
  {
  }

  /** Bytes that may give a size behind a long tag. */
  predicate LongNumber(x: seq<byte>) { x != [] && x[0] != 0 && Number(x) >= 56 }

  /** What reading a tag at p comes to: it takes the bytes t and leads to q. */
  ghost predicate TagRead(p: Place, q: Place, k: Kind, n: nat, b: byte, t: seq<byte>, err: Error)
    requires p.Sound()
  {
    && (err == Nil ==> HasTag(p.input) && p.Has(TagLength(p.input)))
    && (HasTag(p.input) && p.Sure(TagLength(p.input)) ==> err == Nil) && (err == Nil || Failed(err))
    && (err == Nil ==>
      && TagAt(p.input, k, n, |t|) && t <= p.input && q == p.Skip(|t|) && (k == Byte ==> t == [b]))
  }

  lemma LongTagRead(p: Place, q: Place, len: nat, n: nat, t: seq<byte>, err: Error)
    requires p.Sound() && p.Has(1) && p.input != [] && 1 <= len == TagOf(p.input[0]).len
    requires var x := p.Skip(1);
             && (err == Nil ==> x.Has(len) && LongNumber(x.input[..len])) && (err == Nil || Failed(err))
             && (x.Sure(len) && LongNumber(x.input[..len]) ==> err == Nil)
             && (err == Nil ==> q == x.Skip(len) && n == Number(x.input[..len]) && t == p.input[..1 + len])
    ensures TagRead(p, q, TagOf(p.input[0]).kind, n, 0, t, err)
  {
    hide ReadTag, Number, Place.Sound;
    LongTag(p.input, len);
    SkipTwice(p, 1, len);
  }

  lemma ShortTagRead(p: Place)
    requires p.Sound() && p.Has(1) && p.input != [] && TagOf(p.input[0]).len == 0
    ensures var b, tag := p.input[0], TagOf(p.input[0]);
            TagRead(p, p.Skip(1), tag.kind, tag.size, if tag.kind == Byte then b else 0, [b], Nil)
  {
    hide ReadTag, Place.Sound;
    ShortTag(p.input);
  }

  /** A tag can be read, and the content it announces is allowed. */
  predicate Visible(p: Place)
  {
    && HasTag(p.input) && p.Has(TagLength(p.input))
    && p.Allows(ReadTag(p.input).value.tag + ReadTag(p.input).value.size)
  }

  /** What a look at the next value of an exact stream finds, in terms of the window. */
  ghost predicate Looked(p: Place, q: Place, k: Kind, n: nat, b: byte, err: Error)
    requires p.Sound() && p.Exact()
  {
    var w := p.Window();
    if w == [] then (if p.stack.InList? then err == EOL && q == p else Failed(err))
    else match ReadHeader(w)
      case None => Failed(err)
      case Some(h) => err == Nil && Found(p, h, q, k, n, b)
  }

  /** The value ahead has header h; the stream at q stands at its content. */
  ghost predicate Found(p: Place, h: Header, q: Place, k: Kind, n: nat, b: byte)
    requires p.Sound() && p.Exact()
  {
    var total := h.tag + h.size;
    && k == h.kind && 0 < total <= |p.Window()| && p.Has(total)
    && if k == Byte then n == 0 && p.Window()[0] == b && total == 1 && h.tag == 0 && q == p.Skip(1)
       else n == h.size && p.Has(h.tag) && q == p.Skip(h.tag)
            && q.Has(n) && q.Skip(n) == p.Skip(total) && q.input[..n] == p.Window()[h.tag..total]
  }

  lemma VisibleIsHeader(p: Place)
    requires p.Sound() && p.Exact() && p.Window() != []
    ensures Visible(p) <==> ReadHeader(p.Window()).Some?
    ensures Visible(p) ==> ReadHeader(p.Window()) == ReadTag(p.input)
  {
    WindowHas(p, 1);
    TagWithin(p.Window(), p.input);
    if HasTag(p.input) {
      var h := ReadTag(p.input).value;
      WindowHas(p, TagLength(p.input));
      WindowHas(p, h.tag + h.size);
    }
  }

  lemma VisibleIsFound(p: Place, k: Kind, n: nat, b: byte)
    requires p.Sound() && p.Exact() && p.Window() != [] && Visible(p)
    requires TagAt(p.input, k, n, TagLength(p.input)) && (k == Byte ==> b == p.input[0])
    ensures Found(p, ReadTag(p.input).value, p.Skip(TagLength(p.input)), k, n, b)
  {
    var h := ReadTag(p.input).value;
    WindowHas(p, h.tag + h.size);
    if k != Byte {
      SkipTwice(p, h.tag, h.size);
      assert p.Window()[h.tag..h.tag + n] == p.Skip(h.tag).input[..n];
    }
  }

  /** What a fresh look does on any stream: it takes the tag t, which is the one the encoder would write. */
  ghost predicate Saw(p: Place, q: Place, k: Kind, n: nat, b: byte, t: seq<byte>, err: Error)
    requires p.Sound()
  {
    && (err == Nil ==> Visible(p)) && (err == Nil || Failed(err))
    && (Visible(p) && p.Sure(TagLength(p.input)) ==> err == Nil)
    && (err == Nil ==>
      && TagAt(p.input, k, n, |t|) && q == p.Skip(|t|) && q.Allows(n)
      && t + q.input == p.input && t == if k == Byte then [b] else HeadOf(k, n))
  }

  /** A tag that was read is seen exactly when its content is allowed behind it. */
  lemma SawTag(p: Place, q: Place, k: Kind, n: nat, b: byte, t: seq<byte>, err: Error, err': Error)
    requires p.Sound() && TagRead(p, q, k, n, b, t, err)
    requires if err != Nil then err' == err else (err' == Nil <==> q.Allows(n)) && (err' == Nil || Failed(err'))
    ensures Saw(p, q, k, n, b, t, err')
  {
    hide ReadTag, HeadOf, Place.Sound;
    if err == Nil {
      ReadHeaderIsCanonical(p.input);
      AllowsBehind(p, |t|, n);
      assert p.input[..|t|] == t;
    }
  }

  lemma AllowsBehind(p: Place, m: nat, n: nat)
    requires p.Sound() && p.Has(m)
    ensures p.Skip(m).Allows(n) <==> p.Allows(m + n)
  {
  }

  /** A look ahead is remembered, except that nothing is remembered at the end of a list. */
  ghost predicate Kept(p: Place, q: Place, a: Look, k: Kind, n: nat, err: Error)
  {
    if err == EOL then q == p && a.kind == None
    else
      && a.kind == Some(k) && a.size == n && a.err == err && (err == Nil || Failed(err))
      && (err == Nil ==>
        && a.taken != [] && a.taken + q.input == p.input && p.Allows(|a.taken| + n)
        && q.stack == p.stack.Advance(|a.taken|)
        && a.taken == (if k == Byte then [a.byteval] else HeadOf(k, n)) && (k == Byte ==> a.byteval < 0x80))
  }

  lemma KeptSeen(p: Place, q: Place, k: Kind, n: u64, b: byte, t: seq<byte>, err: Error)
    requires p.Sound() && Saw(p, q, k, n, b, t, err)
    ensures Kept(p, q, Look(Some(k), n, b, err, t), k, n, err) && Look(Some(k), n, b, err, t).Fits(q)
  {
    hide ReadTag, HeadOf, Place.Sound;
    if err == Nil {
      AllowsBehind(p, |t|, n);
      if k == Byte { ByteTag(p.input); }
    }
  }

  lemma ByteTag(input: seq<byte>)
    requires HasTag(input) && ReadTag(input).value.kind == Byte
    ensures input[0] < 0x80
  {
  }

  /** What was read between two points of the input is the encoding of the value. */
  ghost predicate Took(t: Type, v: Value, before: seq<byte>, after: seq<byte>)
  {
    HasType(t, v) && Enc(t, v) + after == before
  }

  /** Whatever the stream, a scalar that is read behind a fresh look was written there as the encoder writes it. */
  lemma ScalarTook(t: Type, p: Place, q: Place, a: Look, k: Kind, n: nat, q': Place, armed: Option<bool>, v: Value)
    requires q.Sound() && Kept(p, q, a, k, n, Nil) && !t.TRaw?
    requires ReadsScalar(t, q, k, n, a.byteval, q', armed, Nil, v)
    ensures Took(t, v, p.input, q'.input)
  {
    hide Scalar, Enc, HasType, HeadOf, EncString, Place.Sound;
    var content := if k == Byte then [a.byteval] else q.input[..n];
    ScalarEncodes(t, k, content);
    if k == Byte {
      ShortString(content);
    } else {
      Rejoined(a.taken, q.input, n);
      LongString(t, content);
    }
  }

  lemma ShortString(content: seq<byte>)
    requires |content| == 1 && content[0] < 0x80
    ensures EncString(content) == content
  {
  }

  lemma LongString(t: Type, content: seq<byte>)
    requires Scalar(t, String, content).Some?
    ensures EncString(content) == HeadOf(String, |content|) + content
  {
  }

  lemma BoolTook(v: nat, before: seq<byte>, after: seq<byte>)
    requires v <= 1 && Took(TUint(1), Num(v), before, after)
    ensures Took(TBool, Flag(v == 1), before, after)
  {
    assert Bytes(0) == [] && Bytes(1) == [1];
  }

  lemma LookAgrees(p: Place, q: Place, k: Kind, n: nat, b: byte, t: seq<byte>, err: Error)
    requires p.Sound() && p.Exact() && !(p.stack.InList? && p.stack.Unread() == 0)
    requires Saw(p, q, k, n, b, t, err)
    ensures Looked(p, q, k, n, b, err)
  {
    if p.Window() != [] {
      VisibleIsHeader(p);
      if err == Nil { VisibleIsFound(p, k, n, b); }
    } else {
      WindowHas(p, 1);
      WindowHas(p, 0);
    }
  }

  lemma EndAgrees(p: Place, b: byte)
    requires p.Sound() && p.Exact() && p.stack.InList? && p.stack.Unread() == 0
    ensures Looked(p, p, Byte, 0, b, EOL)
  {
    WindowHas(p, 1);
  }

  /** A call that reads a value of type t does what the reference parser does, wherever an exact stream
      stands, unless an earlier look ahead found something else than a zero byte. */
  ghost predicate Refines(t: Type, p: Place, a: Look, p': Place, a': Look, err: Error, v: Value)
    requires p.Sound()
  {
    p.Exact() && a.Armed().Some? ==>
      Agrees(p, Parse(t, a.Armed().value, p.Window()), p', a'.Armed(), err, v)
  }

  /** What reading a scalar comes to once a look has found kind k, size n and byte value b at q. */
  ghost predicate ReadsScalar(t: Type, q: Place, k: Kind, n: nat, b: byte,
                              q': Place, armed: Option<bool>, err: Error, v: Value)
    requires q.Sound()
  {
    if k == List || (k != Byte && !q.Has(n)) || (k != Byte && !q.Sure(n) && err != Nil) then Failed(err)
    else match Scalar(t, k, if k == Byte then [b] else q.input[..n])
      case None => Failed(err)
      case Some(v') => err == Nil && v == v' && armed == Some(Dirty(t, v)) && q' == if k == Byte then q else q.Skip(n)
  }

  /** A look that fails fails the call. */
  lemma LookFails(t: Type, p: Place, q: Place, k: Kind, n: nat, b: byte, err: Error, armed: Option<bool>, v: Value)
    requires p.Sound() && p.Exact() && Looked(p, q, k, n, b, err) && err != Nil
    requires err == EOL ==> armed == Some(false)
    ensures Agrees(p, Parse(t, false, p.Window()), q, armed, err, v)
  {
  }

  /** Where the content of a value seen at q lies in the window of p, and where reading it leads. */
  lemma ContentAt(t: Type, p: Place, q: Place, k: Kind, n: nat, b: byte) returns (content: seq<byte>, rest: seq<byte>)
    requires p.Sound() && p.Exact() && q.Sound() && Looked(p, q, k, n, b, Nil) && k != List && !t.TRaw?
    ensures k != Byte ==> q.Sure(n)
    ensures content == if k == Byte then [b] else q.input[..n]
    ensures Parse(t, false, p.Window()) == ParseString(t, k, content, rest)
    ensures |rest| <= |p.Window()| && p.Has(|p.Window()| - |rest|)
    ensures p.Skip(|p.Window()| - |rest|) == if k == Byte then q else q.Skip(n)
  {
    hide ParseString, ReadHeader, Parse, Place.Sound, Place.Window, Place.Skip, Place.Has;
    var w := p.Window();
    var h := ReadHeader(w).value;
    var total := h.tag + h.size;
    content, rest := w[h.tag..total], w[total..];
    ParseUnfolds(t, w);
  }

  lemma ListIsNoScalar(t: Type, p: Place, q: Place, n: nat, b: byte)
    requires p.Sound() && p.Exact() && Looked(p, q, List, n, b, Nil) && !t.TRaw? && !IsList(t)
    ensures Parse(t, false, p.Window()) == Err
  {
    hide ReadHeader, Parse, Place.Sound, Place.Window;
    ParseUnfolds(t, p.Window());
  }

  lemma ScalarAgrees(t: Type, p: Place, q: Place, k: Kind, n: nat, b: byte,
                     q': Place, armed: Option<bool>, err: Error, v: Value)
    requires p.Sound() && p.Exact() && q.Sound() && Looked(p, q, k, n, b, Nil)
    requires ReadsScalar(t, q, k, n, b, q', armed, err, v) && !t.TRaw? && (k == List ==> !IsList(t))
    ensures Agrees(p, Parse(t, false, p.Window()), q', armed, err, v)
  {
    hide Scalar, Parse, Looked, Place.Window, Place.Sound, Place.Skip, Place.Has;
    if k == List {
      ListIsNoScalar(t, p, q, n, b);
    } else {
      var content, rest := ContentAt(t, p, q, k, n, b);
    }
  }

  lemma ArmedAgrees(t: Type, p: Place, n: nat, q': Place, armed: Option<bool>, err: Error, v: Value)
    requires p.Sound() && p.Exact() && ReadsScalar(t, p, Byte, n, 0, q', armed, err, v) && !t.TRaw?
    ensures Agrees(p, Parse(t, true, p.Window()), q', armed, err, v)
  {
    hide Scalar, Place.Window, Place.Sound;
    WindowHas(p, 0);
  }

  /** Both cases together: the call looked ahead, or found an armed look. */
  lemma ScalarRefines(t: Type, p: Place, a: Look, q: Place, k: Kind, n: nat, b: byte,
                      q': Place, a': Look, err: Error, v: Value)
    requires p.Sound() && q.Sound() && ReadsScalar(t, q, k, n, b, q', a'.Armed(), err, v)
    requires !t.TRaw? && (k == List ==> !IsList(t))
    requires a.kind.None? && p.Exact() ==> Looked(p, q, k, n, b, Nil)
    requires a.kind.Some? ==> q == p && k == a.kind.value && b == a.byteval
    ensures Refines(t, p, a, q', a', err, v)
  {
    if p.Exact() && a.Armed().Some? {
      if a.kind.None? {
        ScalarAgrees(t, p, q, k, n, b, q', a'.Armed(), err, v);
      } else {
        ArmedAgrees(t, p, n, q', a'.Armed(), err, v);
      }
    }
  }

  /** Bool reads a one-byte integer and accepts 0 and 1. */
  lemma BoolAgrees(p: Place, armed: bool, q: Place, armed': Option<bool>, v: nat, uintErr: Error, err: Error)
    requires p.Sound() && p.Exact() && Agrees(p, Parse(TUint(1), armed, p.Window()), q, armed', uintErr, Num(v))
    requires err == if uintErr == Nil && v > 1 then BadBool else uintErr
    ensures Agrees(p, Parse(TBool, armed, p.Window()), q, armed', err, Flag(v == 1))
  {
    BoolIsUint(armed, p.Window());
  }

  lemma BoolIsUint(armed: bool, w: seq<byte>)
    ensures match Parse(TUint(1), armed, w)
            case Ok(v, again, rest) =>
              v.Num? && Parse(TBool, armed, w) == if v.n == 0 then Ok(Flag(false), again, rest)
                                     else if v.n == 1 then Ok(Flag(true), again, rest) else Err
            case other => Parse(TBool, armed, w) == other
  {
    BoolScalar(Byte, [0]);
    if !armed && w != [] && ReadHeader(w).Some? {
      var h := ReadHeader(w).value;
      BoolScalar(h.kind, w[h.tag..h.tag + h.size]);
      ParseUnfolds(TUint(1), w);
      ParseUnfolds(TBool, w);
    }
  }

  lemma BoolScalar(k: Kind, content: seq<byte>)
    ensures match Scalar(TUint(1), k, content)
            case Some(v) =>
              v.Num? && Scalar(TBool, k, content) == if v.n == 0 then Some(Flag(false))
                                                     else if v.n == 1 then Some(Flag(true)) else None
            case None => Scalar(TBool, k, content) == None
  {
    if |content| == 1 {
      assert content == [content[0]] && Number(content) == content[0];
    }
  }

  /** The list ahead of p was opened at q, whose window is the content of the list. */
  ghost predicate Opened(p: Place, q: Place, armed: Option<bool>, n: u64, err: Error)
    requires p.Sound() && p.Exact()
  {
    var w := p.Window();
    if w == [] then (if p.stack.InList? then err == EOL && q == p && armed == Some(false) else Failed(err))
    else match ReadHeader(w)
      case None => Failed(err)
      case Some(h) =>
        if h.kind != List then Failed(err)
        else
          && err == Nil && n == h.size && armed == Some(false)
          && p.Has(h.tag) && q == p.Skip(h.tag).(stack := InList(0, n, p.Skip(h.tag).stack))
  }

  /** Opening the list that a look has found at q. */
  lemma OpensList(p: Place, q: Place, k: Kind, m: nat, b: byte, e: Error,
                  q': Place, armed: Option<bool>, n: u64, err: Error)
    requires p.Sound() && p.Exact() && Looked(p, q, k, m, b, e)
    requires if e != Nil then err == e && q' == q && (e == EOL ==> armed == Some(false))
             else if k != List then err == ExpectedList
             else err == Nil && n == m && armed == Some(false) && q' == q.(stack := InList(0, n, q.stack))
    ensures Opened(p, q', armed, n, err)
  {
    hide ReadHeader, Place.Window, Place.Sound;
  }

  /** What Raw comes to once a look has found kind k, size n and byte value b at q: it puts a new header in
      front of the content. The buffer size wraps for sizes near 2^64. */
  ghost predicate ReadsRaw(q: Place, k: Kind, n: nat, b: byte, q': Place, armed: Option<bool>, err: Error, r: seq<byte>)
    requires q.Sound()
  {
    if k == Byte then err == Nil && r == [b] && q' == q && armed == Some(false)
    else if HeadSize(n) + n >= U64_LIMIT then err == Panic
    else if !q.Has(n) || (!q.Sure(n) && err != Nil) then Failed(err)
    else err == Nil && r == HeadOf(k, n) + q.input[..n] && q' == q.Skip(n) && armed == Some(false)
  }

  /** On an exact stream, the rebuilt header is the one that was read, so Raw returns the input bytes. */
  lemma RawAgrees(p: Place, q: Place, k: Kind, n: nat, b: byte,
                  q': Place, armed: Option<bool>, err: Error, r: seq<byte>)
    requires p.Sound() && p.Exact() && q.Sound() && Looked(p, q, k, n, b, Nil)
    requires ReadsRaw(q, k, n, b, q', armed, err, r)
    ensures Agrees(p, Parse(TRaw, false, p.Window()), q', armed, err, Blob(r))
  {
    hide ReadHeader, HeadOf, Parse, Place.Window, Place.Sound;
    var w := p.Window();
    var h := ReadHeader(w).value;
    var total := h.tag + h.size;
    ReadHeaderIsCanonical(w);
    HeadOfLength(h);
    RawUnfolds(w);
    RawBytes(w, h.tag, total);
  }

  lemma RawBytes(w: seq<byte>, tag: nat, total: nat)
    requires tag <= total <= |w|
    ensures w[..total] == w[..tag] + w[tag..total]
    ensures total == 1 ==> w[..total] == [w[0]]
  {
  }

  lemma RawUnfolds(w: seq<byte>)
    requires w != [] && ReadHeader(w).Some?
    ensures var h := ReadHeader(w).value;
            Parse(TRaw, false, w) == Ok(Blob(w[..h.tag + h.size]), false, w[h.tag + h.size..])
  {
  }

  /** Whatever the stream, what Raw returns is the tag that was taken and the content; it can only panic
      if the two together are 2^64 bytes or more. */
  lemma RawTaken(q: Place, k: Kind, n: nat, b: byte, t: seq<byte>,
                 q': Place, armed: Option<bool>, err: Error, r: seq<byte>)
    requires q.Sound() && ReadsRaw(q, k, n, b, q', armed, err, r)
    requires t == if k == Byte then [b] else HeadOf(k, n)
    ensures err == Nil ==> r + q'.input == t + q.input
    ensures err == Panic ==> |t| + n >= U64_LIMIT
  {
    hide HeadOf, HeadSize, Place.Sound;
    if k != Byte && q.Has(n) { Rejoined(t, q.input, n); }
    HeadOfLength(Header(k, 0, n));
  }

  lemma Rejoined(t: seq<byte>, input: seq<byte>, n: nat)
    requires n <= |input|
    ensures t + input[..n] + input[n..] == t + input
  {
    assert input == input[..n] + input[n..];
  }

  lemma HeadOfLength(h: Header)
    ensures h.kind != Byte ==> |HeadOf(h.kind, h.size)| == HeadSize(h.size)
  {
  }

  /** A string of two or more bytes without leading zero is at least 256. */
  lemma WideNumber(c: seq<byte>)
    requires |c| >= 2 && c[0] != 0
    ensures Number(c) >= 0x100
  {
    BytesOfNumber(c);
    BytesLength(Number(c), 1);
    SpanValues();
  }

  lemma RawArmed(p: Place)
    requires p.Sound() && p.Exact()
    ensures Agrees(p, Parse(TRaw, true, p.Window()), p, Some(false), Nil, Blob([0]))
  {
    assert p.Skip(0) == p;
  }

  /** Allocates room for a header in front of the content and writes it there. */
  method WithHead(k: Kind, content: seq<byte>) returns (r: seq<byte>)
    requires k != Byte && |content| < U64_LIMIT
    ensures r == HeadOf(k, |content|) + content
  {
    hide HeadSize, Head;
    var start := HeadSize(|content|);
    var buf := new byte[start + |content|](i => 0);
    forall i | 0 <= i < |content| {
      buf[start + i] := content[i];
    }
    var small, large := if k == String then 0x80 else 0xC0, if k == String then 0xB7 else 0xF7;
    var n := PutHead(buf, 0, small, large, |content|);
    r := buf[..];
    assert r[..n] == buf[0..n] && r[n..] == content;
    assert r == r[..n] + r[n..];
  }

  // ---------------------------------------------------------------- the stream

  class Stream {
    var input: seq<byte>      // bytes the reader has yet to deliver
    var remaining: u64        // bytes left under the limit
    var limited: bool
    var eager: bool           // the reader may report its end together with its last bytes
    var uintbuf: seq<byte>    // scratch space for integers

    var kind: Option<Kind>    // kind of the value ahead, once looked at
    var size: u64             // size of the value ahead
    var byteval: byte         // value of a single byte in the type tag
    var kinderr: Error        // error from the last look
    var stack: Lists          // open lists

    ghost var taken: seq<byte>   // the header bytes the last look took from the input; [] if it took none

    ghost predicate Valid()
      reads this
    {
      Now().Sound() && Ahead().Fits(Now()) && |uintbuf| == 8
    }

    ghost function Now(): Place
      reads this
    {
      Place(input, stack, remaining, limited, eager)
    }

    ghost function Ahead(): Look
      reads this
    {
      Look(kind, size, byteval, kinderr, taken)
    }

    constructor ()
      ensures Valid() && Now() == Place([], NoList, 0, false, false) && kind == None
    {
      remaining, limited, eager, input, stack, size := 0, false, false, [], NoList, 0;
      kind, kinderr, byteval, taken := None, Nil, 0, [];
      uintbuf := Zeros(8);
    }

    /** Starts over on new input, from any state at all. `sized` says that the reader knows its length, `mayEnd` that it
        may report its end together with its last bytes. */
    method Reset(data: seq<byte>, inputLimit: u64, sized: bool, mayEnd: bool)
      requires |data| < U64_LIMIT
      modifies this
      ensures Valid() && eager == mayEnd && input == data
      ensures stack == NoList && kind == None && kinderr == Nil && taken == []
      ensures limited <==> inputLimit > 0 || sized
      ensures limited ==> remaining == if inputLimit > 0 then inputLimit else |data|
    {
      hide HeadOf, Lists.Owed;
      if inputLimit > 0 {
        remaining, limited := inputLimit, true;
      } else if sized {
        remaining, limited := |data|, true;
      } else {
        limited := false;
      }
      input, eager := data, mayEnd;
      stack, size, kind, kinderr, byteval, taken := NoList, 0, None, Nil, 0, [];
      if |uintbuf| != 8 {
        uintbuf := Zeros(8);
      }
    }

    /** Pretends to stand at a list of the given length. */
    method ResetToList(data: seq<byte>, len: u64, sized: bool, mayEnd: bool)
      requires |data| < U64_LIMIT
      modifies this
      ensures Valid() && eager == mayEnd && input == data && stack == NoList && taken == []
      ensures kind == Some(Kind.List) && size == len && kinderr == Nil
      ensures limited <==> len > 0 || sized
      ensures limited ==> remaining == if len > 0 then len else |data|
    {
      Reset(data, len, sized, mayEnd);
      kind, size := Some(Kind.List), len;
    }

    // -------------------------------------------------------------- reading bytes

    /** Accounts for n bytes about to be read. Within a list of a limited stream the limit cannot fail. */
    method WillRead(n: u64) returns (err: Error)
      requires Valid()
      modifies this`kind, this`stack, this`remaining
      ensures Valid() && kind == None
      ensures err == Nil <==> old(Now()).Allows(n)
      ensures err == Nil ==> stack == old(stack).Advance(n)
      ensures err == Nil && limited ==> remaining == old(remaining) - n
      ensures err != Nil || !limited ==> remaining == old(remaining)
      ensures err != Nil ==> stack == old(stack) && err == (if stack.InList? then ElemTooLarge else ValueTooLarge)
    {
      kind, err := None, Nil;
      if stack.InList? {
        OwedCovers(stack);
        if n > stack.size - stack.pos {
          return ElemTooLarge;
        }
        stack := InList(stack.pos + n, stack.size, stack.outer);
      }
      if limited {
        if n > remaining {
          return ValueTooLarge;
        }
        remaining := remaining - n;
      }
    }

    /** The reader delivers at least one byte and at most n, or reports the end of its data. An eager one may do
        both. */
    method ReadSome(n: nat) returns (p: seq<byte>, eof: bool)
      requires n > 0
      modifies this`input
      ensures p + input == old(input) && |p| <= n
      ensures p == [] ==> eof
      ensures if old(input) == [] then eof else p != []
      ensures eof ==> input == [] && (old(input) == [] || eager)
    {
      if input == [] { return [], true; }
      var k :| 1 <= k <= n && k <= |input|;
      p, input := input[..k], input[k..];
      eof := *;
      eof := eof && eager && input == [];
    }

    /** Keeps reading until n bytes have arrived or the reader reports its end, be it with the last of them. */
    method Gather(n: nat) returns (buf: seq<byte>, err: Error)
      modifies this`input
      ensures err == Nil || err == UnexpectedEOF
      ensures err == Nil ==> n <= |old(input)| && buf == old(input)[..n] && input == old(input)[n..]
      ensures err != Nil ==> input == [] && (n > |old(input)| || (eager && 0 < n == |old(input)|))
      ensures |old(input)| - n <= |input| <= |old(input)|
    {
      buf, err := [], Nil;
      while |buf| < n && err == Nil
        invariant |buf| <= n && buf + input == old(input)
        invariant err == Nil || (err == UnexpectedEOF && input == [] && (|buf| < n || (eager && n > 0)))
        decreases n - |buf|, err == Nil
      {
        var p, eof := ReadSome(n - |buf|);
        buf := buf + p;
        if eof { err := UnexpectedEOF; }
      }
    }

    /** Reads n bytes. It fails if they are not allowed or not there, and may fail on the very last bytes of an eager
        reader, although they have arrived. */
    method ReadFull(n: u64) returns (buf: seq<byte>, err: Error)
      requires Valid()
      modifies this`kind, this`stack, this`remaining, this`input
      ensures Valid() && kind == None
      ensures Spent(old(Now()), Now())
      ensures err == Nil ==> old(Now()).Has(n)
      ensures old(Now()).Sure(n) ==> err == Nil
      ensures err == Nil ==> Now() == old(Now()).Skip(n) && buf == old(input)[..n]
      ensures err == Nil || Failed(err)
    {
      buf := [];
      err := WillRead(n);
      if err == Nil {
        buf, err := Gather(n);
      }
    }

    method ReadByte() returns (b: byte, err: Error)
      requires Valid()
      modifies this`kind, this`stack, this`remaining, this`input
      ensures Valid() && kind == None
      ensures Spent(old(Now()), Now())
      ensures err == Nil <==> old(Now()).Has(1)
      ensures err == Nil ==> Now() == old(Now()).Skip(1) && b == old(input)[0]
      ensures err == Nil || err == ElemTooLarge || err == ValueTooLarge || err == UnexpectedEOF
    {
      err := WillRead(1);
      if err != Nil { return 0, err; }
      if input == [] { return 0, UnexpectedEOF; }
      b, input := input[0], input[1..];
    }

    /** Reads a big-endian integer of n bytes; above one byte a leading zero is refused. */
    method ReadUint(n: nat) returns (v: u64, err: Error)
      requires Valid() && n <= 8
      modifies this`kind, this`stack, this`remaining, this`input, this`uintbuf
      ensures Valid() && kind == None
      ensures Spent(old(Now()), Now())
      ensures err == Nil ==> old(Now()).Has(n) && (n > 1 ==> old(input)[0] != 0)
      ensures (if n > 1 then old(Now()).Sure(n) && old(input)[0] != 0 else old(Now()).Has(n)) ==> err == Nil
      ensures err == Nil ==> Now() == old(Now()).Skip(n) && v == Number(old(input)[..n])
      ensures err == Nil || Failed(err)
      ensures err == CanonSize ==> n > 1
    {
      if n == 0 {
        kind := None;
        v, err := 0, Nil;
      } else if n == 1 {
        v, err := ReadByte();
        assert err == Nil ==> old(input)[..1] == [v] && Number([v]) == v;
      } else {
        v, err := ReadWide(n);
      }
    }

    method ReadWide(n: nat) returns (v: u64, err: Error)
      requires Valid() && 2 <= n <= 8
      modifies this`kind, this`stack, this`remaining, this`input, this`uintbuf
      ensures Valid() && kind == None
      ensures Spent(old(Now()), Now())
      ensures err == Nil ==> old(Now()).Has(n) && old(input)[0] != 0
      ensures old(Now()).Sure(n) && old(input)[0] != 0 ==> err == Nil
      ensures err == Nil ==> Now() == old(Now()).Skip(n) && v == Number(old(input)[..n])
      ensures err == Nil || Failed(err)
    {
      var bytes;
      bytes, err := ReadFull(n);
      if err != Nil { return 0, err; }
      uintbuf := Zeros(8 - n) + bytes;
      EightBytes(bytes);
      v, err := Number(uintbuf), if uintbuf[8 - n] == 0 then CanonSize else Nil;
    }

    /** The size behind a long tag: at least 56, without leading zeros. */
    method ReadLongSize(n: nat) returns (v: u64, err: Error)
      requires Valid() && 1 <= n <= 8
      modifies this`kind, this`stack, this`remaining, this`input, this`uintbuf
      ensures Valid() && kind == None
      ensures Spent(old(Now()), Now())
      ensures err == Nil ==> old(Now()).Has(n) && LongNumber(old(input)[..n])
      ensures old(Now()).Sure(n) && LongNumber(old(input)[..n]) ==> err == Nil
      ensures err == Nil ==> Now() == old(Now()).Skip(n) && v == Number(old(input)[..n])
      ensures err == Nil || Failed(err)
    {
      v, err := ReadUint(n);
      if n == 1 && err == Nil { assert old(input)[..1] == [old(input)[0]]; }
      if err == Nil && v < 56 {
        err := CanonSize;
      }
    }

    /** Reads a type tag. */
    method ReadKind() returns (k: Kind, n: u64, err: Error)
      requires Valid()
      modifies this`kind, this`stack, this`remaining, this`input, this`uintbuf, this`byteval, this`taken
      ensures Valid() && kind == None
      ensures Spent(old(Now()), Now())
      ensures var tag := TagRead(old(Now()), Now(), k, n, byteval, taken, err); tag
    {
      hide ReadTag;
      var b;
      b, err := ReadByte();
      if err != Nil {
        // At toplevel, running out of input is a plain end of file.
        err := if stack.NoList? && (err == UnexpectedEOF || err == ValueTooLarge) then EOF else err;
        k, n := Byte, 0;
      } else {
        k, n, err := ReadTagBehind(b, old(Now()));
      }
    }

    /** The rest of a type tag behind its first byte b. */
    method ReadTagBehind(b: byte, ghost start: Place) returns (k: Kind, n: u64, err: Error)
      requires Valid() && kind == None
      requires start.Sound() && start.Has(1) && Now() == start.Skip(1) && b == start.input[0]
      modifies this`kind, this`stack, this`remaining, this`input, this`uintbuf, this`byteval, this`taken
      ensures Valid() && kind == None
      ensures Spent(old(Now()), Now())
      ensures var tag := TagRead(start, Now(), k, n, byteval, taken, err); tag
    {
      hide TagRead, LongNumber, Number;
      var tag := TagOf(b);
      k := tag.kind;
      byteval := if k == Byte then b else 0;
      if tag.len > 0 {
        n, err := ReadLongSize(tag.len);
        taken := start.input[..if err == Nil then 1 + tag.len else 1];
        LongTagRead(start, Now(), tag.len, n, taken, err);
      } else {
        n, err, taken := tag.size, Nil, [b];
        ShortTagRead(start);
      }
    }

    // -------------------------------------------------------------- looking ahead

    /** The kind and size of the next value. A look is kept until its value is read; so is its error. */
    method NextKind() returns (k: Kind, n: u64, err: Error)
      requires Valid()
      modifies this
      ensures Valid()
      ensures Spent(old(Now()), Now())
      ensures old(kind).Some? ==>
        Now() == old(Now()) && Ahead() == old(Ahead()) && k == kind.value && n == size && err == kinderr
      ensures old(kind).None? ==> Kept(old(Now()), Now(), Ahead(), k, n, err)
      ensures old(kind).None? && old(Now()).Exact() ==>
        (var looked := Looked(old(Now()), Now(), k, n, byteval, err); looked)
    {
      if kind.Some? {
        k, n, err := kind.value, size, kinderr;
      } else {
        k, n, err := LookAhead();
      }
    }

    method LookAhead() returns (k: Kind, n: u64, err: Error)
      requires Valid() && kind == None
      modifies this
      ensures Valid()
      ensures Spent(old(Now()), Now())
      ensures Kept(old(Now()), Now(), Ahead(), k, n, err)
      ensures old(Now()).Exact() ==> (var looked := Looked(old(Now()), Now(), k, n, byteval, err); looked)
    {
      hide Saw, Looked, HeadOf;
      kinderr := Nil;
      ghost var p := Now();
      if stack.InList? && stack.pos == stack.size {
        k, n, err := Byte, 0, EOL;
        if p.Exact() { EndAgrees(p, byteval); }
      } else {
        k, n, err := FreshLook();
        kind, size, kinderr := Some(k), n, err;
        KeptSeen(p, Now(), k, n, byteval, taken, err);
        if p.Exact() { LookAgrees(p, Now(), k, n, byteval, taken, err); }
      }
    }

    /** Reads the next tag and checks the announced size against the list or the limit. */
    method FreshLook() returns (k: Kind, n: u64, err: Error)
      requires Valid() && kind == None
      modifies this`kind, this`stack, this`remaining, this`input, this`uintbuf, this`byteval, this`taken
      ensures Valid() && kind == None
      ensures Spent(old(Now()), Now())
      ensures var saw := Saw(old(Now()), Now(), k, n, byteval, taken, err); saw
    {
      hide TagRead, Saw;
      k, n, err := ReadKind();
      ghost var read := err;
      if err == Nil {
        if stack.NoList? {
          err := if limited && n > remaining then ValueTooLarge else Nil;
        } else {
          err := if n > stack.size - stack.pos then ElemTooLarge else Nil;
        }
      }
      SawTag(old(Now()), Now(), k, n, byteval, taken, read, err);
    }

    // -------------------------------------------------------------- reading values

    /** The next value as a string. */
    method Bytes() returns (b: seq<byte>, err: Error)
      requires Valid()
      modifies this
      ensures Valid()
      ensures Spent(old(Now()), Now())
      ensures Refines(TBytes, old(Now()), old(Ahead()), Now(), Ahead(), err, Blob(b))
      ensures old(kind).Some? && old(kinderr) == Nil ==>
        (var done := ReadsScalar(TBytes, old(Now()), old(kind).value, old(size), old(byteval),
                                 Now(), Ahead().Armed(), err, Blob(b)); done)
      ensures err == Nil && old(kind).None? ==> (var took := Took(TBytes, Blob(b), old(input), input); took)
    {
      hide Looked, Parse, Agrees, ReadsScalar, Took, HeadOf;
      ghost var p, a := Now(), Ahead();
      var k, n;
      k, n, err := NextKind();
      b := [];
      ghost var q, v, look := Now(), byteval, Ahead();
      if err == Nil {
        b, err := BytesBehind(k, n);
        ScalarRefines(TBytes, p, a, q, k, n, v, Now(), Ahead(), err, Blob(b));
        if a.kind.None? && err == Nil { ScalarTook(TBytes, p, q, look, k, n, Now(), Ahead().Armed(), Blob(b)); }
      } else if p.Exact() && a.kind.None? {
        LookFails(TBytes, p, q, k, n, v, err, Ahead().Armed(), Blob(b));
      }
    }

    method BytesBehind(k: Kind, n: u64) returns (b: seq<byte>, err: Error)
      requires Valid() && kind == Some(k) && kinderr == Nil
      modifies this
      ensures Valid()
      ensures Spent(old(Now()), Now())
      ensures ReadsScalar(TBytes, old(Now()), k, n, old(byteval), Now(), Ahead().Armed(), err, Blob(b))
    {
      match k {
        case Byte =>
          kind := None;
          b, err := [byteval], Nil;
        case String =>
          b, err := ReadFull(n);
          if err == Nil && n == 1 && b[0] < 0x80 {
            err := CanonSize;
          }
        case List =>
          b, err := [], ExpectedString;
      }
    }

    /** The next value as an unsigned integer of at most `width` bytes. */
    method Uint(width: Width) returns (v: u64, err: Error)
      requires Valid()
      modifies this
      ensures Valid()
      ensures Spent(old(Now()), Now())
      ensures Refines(TUint(width), old(Now()), old(Ahead()), Now(), Ahead(), err, Num(v))
      ensures old(kind).Some? && old(kinderr) == Nil ==>
        (var done := ReadsScalar(TUint(width), old(Now()), old(kind).value, old(size), old(byteval),
                                 Now(), Ahead().Armed(), err, Num(v)); done)
      ensures err == Nil && old(kind).None? ==> (var took := Took(TUint(width), Num(v), old(input), input); took)
      ensures old(Ahead()).Armed() == Some(true) ==> v == 0 && Now() == old(Now()) && Ahead() == old(Ahead())
    {
      hide Looked, Parse, Agrees, ReadsScalar, Took, HeadOf;
      ghost var p, a := Now(), Ahead();
      var k, n;
      k, n, err := NextKind();
      v := 0;
      ghost var q, b, look := Now(), byteval, Ahead();
      if err == Nil {
        v, err := UintBehind(width, k, n);
        ScalarRefines(TUint(width), p, a, q, k, n, b, Now(), Ahead(), err, Num(v));
        if a.kind.None? && err == Nil { ScalarTook(TUint(width), p, q, look, k, n, Now(), Ahead().Armed(), Num(v)); }
      } else if p.Exact() && a.kind.None? {
        LookFails(TUint(width), p, q, k, n, b, err, Ahead().Armed(), Num(v));
      }
    }

    method UintBehind(width: Width, k: Kind, n: u64) returns (v: u64, err: Error)
      requires Valid() && kind == Some(k) && kinderr == Nil
      modifies this
      ensures Valid()
      ensures Spent(old(Now()), Now())
      ensures ReadsScalar(TUint(width), old(Now()), k, n, old(byteval), Now(), Ahead().Armed(), err, Num(v))
      ensures old(Ahead()).Armed() == Some(true) ==> v == 0 && Now() == old(Now()) && Ahead() == old(Ahead())
    {
      match k {
        case Byte =>
          v, err := 0, CanonInt;
          if byteval != 0 {
            kind := None;
            v, err := byteval, Nil;
          }
          assert Number([byteval]) == byteval;
        case String =>
          v, err := UintString(width, n);
        case List =>
          v, err := 0, ExpectedString;
      }
    }

    method UintString(width: Width, n: u64) returns (v: u64, err: Error)
      requires Valid()
      modifies this
      ensures Valid()
      ensures Spent(old(Now()), Now())
      ensures ReadsScalar(TUint(width), old(Now()), String, n, 0, Now(), Ahead().Armed(), err, Num(v))
    {
      if n > width { return 0, UintOverflow; }
      v, err := ReadUint(n);
      if err == Nil {
        ghost var content := old(input)[..n];
        if n > 1 { WideNumber(content); }
        if n == 1 { assert content == [content[0]]; }
        if n > 0 && v < 0x80 { err := CanonSize; }
      } else if err == CanonSize {
        err := CanonInt;
      }
    }

    method Bool() returns (b: bool, err: Error)
      requires Valid()
      modifies this
      ensures Valid()
      ensures Spent(old(Now()), Now())
      ensures Refines(TBool, old(Now()), old(Ahead()), Now(), Ahead(), err, Flag(b))
      ensures err == Nil && old(kind).None? ==> (var took := Took(TBool, Flag(b), old(input), input); took)
    {
      hide Parse, Agrees, Took, ReadsScalar;
      ghost var p, a := Now(), Ahead();
      var v;
      v, err := Uint(1);
      b := v == 1;
      ghost var uintErr := err;
      if err == Nil && v > 1 { err := BadBool; }
      if err == Nil && a.kind.None? { BoolTook(v, p.input, input); }
      if p.Exact() && a.Armed().Some? {
        BoolAgrees(p, a.Armed().value, Now(), Ahead().Armed(), v, uintErr, err);
      }
    }

    /** The next value with its type tag. Whatever the stream, the result is byte for byte what was taken
        from the input, although the tag is put together anew. */
    method Raw() returns (r: seq<byte>, err: Error)
      requires Valid()
      modifies this
      ensures Valid()
      ensures Spent(old(Now()), Now())
      ensures Refines(TRaw, old(Now()), old(Ahead()), Now(), Ahead(), err, Blob(r))
      ensures err == Nil && old(kind).None? ==> r + input == old(input)
      ensures err == Panic && old(kind).None? ==> !old(limited) && old(stack).NoList?
      ensures old(kind).Some? && old(kinderr) == Nil ==>
        (err == Panic <==> old(kind).value != Byte && HeadSize(old(size)) + old(size) >= U64_LIMIT)
      ensures err == Nil && old(kind).Some? && old(taken) != [] ==> r + input == old(taken) + old(input)
    {
      hide Looked, Parse, Agrees, HeadOf;
      ghost var p, a := Now(), Ahead();
      var k, n;
      k, n, err := NextKind();
      r := [];
      ghost var q, b, t := Now(), byteval, taken;
      if err == Nil {
        r, err := RawBehind(k, n);
        if p.Exact() {
          if a.kind.None? {
            RawAgrees(p, q, k, n, b, Now(), Ahead().Armed(), err, r);
          } else if a.Armed().Some? {
            RawArmed(p);
          }
        }
        if t != [] { RawTaken(q, k, n, b, t, Now(), Ahead().Armed(), err, r); }
      } else if p.Exact() && a.kind.None? {
        LookFails(TRaw, p, q, k, n, b, err, Ahead().Armed(), Blob(r));
      }
    }

    method RawBehind(k: Kind, n: u64) returns (r: seq<byte>, err: Error)
      requires Valid() && kind == Some(k) && kinderr == Nil
      modifies this
      ensures Valid()
      ensures Spent(old(Now()), Now())
      ensures ReadsRaw(old(Now()), k, n, old(byteval), Now(), Ahead().Armed(), err, r)
    {
      r, err := [], Nil;
      if k == Byte {
        kind := None;
        return [byteval], Nil;
      }
      var start := HeadSize(n);
      if start + n >= U64_LIMIT { return [], Panic; }
      var content;
      content, err := ReadFull(n);
      if err == Nil {
        r := WithHead(k, content);
      }
    }

    /** Opens the list ahead. */
    method List() returns (n: u64, err: Error)
      requires Valid()
      modifies this
      ensures Valid()
      ensures Spent(old(Now()), Now())
      ensures old(kind).None? && old(Now()).Exact() ==> Opened(old(Now()), Now(), Ahead().Armed(), n, err)
      ensures old(kind).Some? && old(kinderr) == Nil ==>
        if old(kind).value != Kind.List then Failed(err)
        else err == Nil && n == old(size) && kind == None && Now() == old(Now()).(stack := InList(0, n, old(stack)))
      ensures err == Nil && old(kind).None? ==>
        && ListHead(n) + input == old(input) && old(stack).Fits(|ListHead(n)|)
        && stack == InList(0, n, old(stack).Advance(|ListHead(n)|))
    {
      hide Looked, Opened, Lists.Owed, Lists.Nested;
      ghost var p, a := Now(), Ahead();
      var k;
      k, n, err := NextKind();
      ghost var q, b, e, m := Now(), byteval, err, n;
      if err == Nil {
        if k != Kind.List {
          n, err := 0, ExpectedList;
        } else {
          PushKeeps(stack, n);
          stack := InList(0, n, stack);
          kind, size := None, 0;
        }
      }
      if a.kind.None? && p.Exact() { OpensList(p, q, k, m, b, e, Now(), Ahead().Armed(), n, err); }
    }

    /** Returns to the enclosing list. The list must be used up. */
    method ListEnd() returns (err: Error)
      requires Valid()
      modifies this
      ensures Valid()
      ensures Spent(old(Now()), Now())
      ensures err == if old(stack).NoList? then NotInList else if old(stack).Unread() != 0 then NotAtEOL else Nil
      ensures err == Nil ==> kind == None && Now() == old(Now()).(stack := old(stack).outer.Advance(old(stack).size))
      ensures err != Nil ==> Now() == old(Now()) && Ahead() == old(Ahead())
    {
      if stack.NoList? {
        err := NotInList;
      } else if stack.pos != stack.size {
        err := NotAtEOL;
      } else {
        hide Lists.Nested, Lists.Owed;
        PopKeeps(stack);
        stack := stack.outer.Advance(stack.size);
        kind, size, err := None, 0, Nil;
      }
    }
  }

  /** The calls a client of a stream can make. */
  datatype Call = CallKind | CallBytes | CallRaw | CallUint(width: Width) | CallBool | CallList | CallListEnd

  /** Whatever is called in whatever order, and whether or not it succeeds, the stream stays valid and a limited
      stream never takes more bytes from its reader than the limit. */
  method Run(s: Stream, calls: seq<Call>)
    requires s.Valid()
    modifies s
    ensures s.Valid() && Spent(old(s.Now()), s.Now())
    ensures old(s.limited) ==> |old(s.input)| - |s.input| <= old(s.remaining)
  {
    for i := 0 to |calls|
      invariant s.Valid() && Spent(old(s.Now()), s.Now())
    {
      match calls[i] {
        case CallKind => var _, _, _ := s.NextKind();
        case CallBytes => var _, _ := s.Bytes();
        case CallRaw => var _, _ := s.Raw();
        case CallUint(width) => var _, _ := s.Uint(width);
        case CallBool => var _, _ := s.Bool();
        case CallList => var _, _ := s.List();
        case CallListEnd => var _ := s.ListEnd();
      }
    }
  }
}
