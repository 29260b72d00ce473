/** The decoding loops one iteration at a time.

    The reference parser of `Codec` recognises loops that make no progress and reports them. Here the loops simply run,
    for as many iterations as they are given, and the report is proved right: it is made if and only if no number of
    iterations is enough.
 */
module Iteration {
  import opened BigEndian
  import opened Header
  import opened Wrappers
  import opened Codec

  /** Decoding with at most k iterations of every loop; Loop means that they were not enough. */
  function Run(k: nat, t: Type, armed: bool, w: seq<byte>): Parsed
    decreases k, 1
  {
    if armed then ParseArmed(t, w)
    else if w == [] then Eol
    else match ReadHeader(w)
      case None => Err
      case Some(h) =>
        var total := h.tag + h.size;
        if t.TRaw? then Ok(Blob(w[..total]), false, w[total..])
        else if h.kind != List then ParseString(t, h.kind, w[h.tag..total], w[total..])
        else if !IsList(t) then Err
        else AsList(RunItems(k, LayoutOf(t), false, w[h.tag..total]), w[total..])
  }

  function AsList(r: ParsedItems, rest: seq<byte>): Parsed
  {
    match r
    case Found(vs) => Ok(Items(vs), false, rest)
    case Bad => Err
    case Endless => Loop
  }

  /** The loop over the items of a list, each of them decoded with the iterations that are left. */
  function RunItems(k: nat, lay: Layout, armed: bool, w: seq<byte>): ParsedItems
    decreases k, 0
  {
    if !lay.More() then (if w == [] then Found([]) else Bad)
    else if k == 0 then Endless
    else match Run(k - 1, lay.Head(), armed, w)
      case Eol => if lay.row == [] then Found([]) else Bad
      case Err => Bad
      case Loop => Endless
      case Ok(v, again, rest) => Prepend([v], RunItems(k - 1, lay.Rest(), again, rest))
  }

  lemma RunItemsStep(k: nat, lay: Layout, armed: bool, w: seq<byte>)
    requires lay.More() && k > 0
    ensures var p := Run(k - 1, lay.Head(), armed, w);
            RunItems(k, lay, armed, w) ==
              if p.Ok? then Prepend([p.v], RunItems(k - 1, lay.Rest(), p.armed, p.rest))
              else if p.Loop? then Endless
              else if p.Eol? && lay.row == [] then Found([]) else Bad
  {
    hide Run;
  }

  lemma ParseIsAsList(t: Type, w: seq<byte>)
    requires w != [] && ReadHeader(w).Some? && ReadHeader(w).value.kind == List && IsList(t)
    ensures var h := ReadHeader(w).value;
            Parse(t, false, w) == AsList(ParseItems(LayoutOf(t), false, w[h.tag..h.tag + h.size]), w[h.tag + h.size..])
  {
    hide ParseItems;
  }

  lemma RunIsAsList(k: nat, t: Type, w: seq<byte>)
    requires w != [] && ReadHeader(w).Some? && ReadHeader(w).value.kind == List && IsList(t)
    ensures var h := ReadHeader(w).value;
            && h.tag > 0 && h.tag + h.size <= |w|
            && Run(k, t, false, w) ==
               AsList(RunItems(k, LayoutOf(t), false, w[h.tag..h.tag + h.size]), w[h.tag + h.size..])
  {
    hide RunItems;
  }

  /** No list is looped over: the number of iterations does not matter. */
  lemma NoLoop(k: nat, t: Type, armed: bool, w: seq<byte>)
    requires armed || w == [] || ReadHeader(w).None? || ReadHeader(w).value.kind != List || !IsList(t)
    ensures Run(k, t, armed, w) == Parse(t, armed, w) && !Parse(t, armed, w).Loop?
  {
    hide ParseItems, RunItems;
  }

  /** A run that ends gives what the parser gives. */
  lemma {:induction false} RunIsParse(k: nat, t: Type, armed: bool, w: seq<byte>)
    ensures Run(k, t, armed, w).Loop? || Run(k, t, armed, w) == Parse(t, armed, w)
    decreases k, 1
  {
    if armed || w == [] || ReadHeader(w).None? || ReadHeader(w).value.kind != List || !IsList(t) {
      NoLoop(k, t, armed, w);
    } else {
      hide Parse, ParseItems, RunItems;
      var h := ReadHeader(w).value;
      ParseIsAsList(t, w);
      RunItemsIsParse(k, LayoutOf(t), false, w[h.tag..h.tag + h.size]);
    }
  }

  lemma {:induction false} RunItemsIsParse(k: nat, lay: Layout, armed: bool, w: seq<byte>)
    ensures RunItems(k, lay, armed, w).Endless? || RunItems(k, lay, armed, w) == ParseItems(lay, armed, w)
    decreases k, 0
  {
    hide Parse, ParseItems, Run, RunItems;
    if !lay.More() || k == 0 {
      RunItemsAtOnce(k, lay, armed, w);
    } else {
      RunItemsStep(k, lay, armed, w);
      RunIsParse(k - 1, lay.Head(), armed, w);
      ParseItemsStep(lay, armed, w);
      var p := Run(k - 1, lay.Head(), armed, w);
      if p.Ok? { RunItemsIsParse(k - 1, lay.Rest(), p.armed, p.rest); }
    }
  }

  lemma RunItemsAtOnce(k: nat, lay: Layout, armed: bool, w: seq<byte>)
    requires !lay.More() || k == 0
    ensures RunItems(k, lay, armed, w).Endless? || RunItems(k, lay, armed, w) == ParseItems(lay, armed, w)
  {
    hide Parse, Run;
  }

  /** More iterations change nothing about a run that ends. */
  lemma {:induction false} RunLonger(k: nat, m: nat, t: Type, armed: bool, w: seq<byte>)
    requires k <= m && !Run(k, t, armed, w).Loop?
    ensures Run(m, t, armed, w) == Run(k, t, armed, w)
    decreases k, 1
  {
    if armed || w == [] || ReadHeader(w).None? || ReadHeader(w).value.kind != List || !IsList(t) {
      NoLoop(k, t, armed, w);
      NoLoop(m, t, armed, w);
    } else {
      hide RunItems;
      var h := ReadHeader(w).value;
      RunItemsLonger(k, m, LayoutOf(t), false, w[h.tag..h.tag + h.size]);
    }
  }

  lemma {:induction false} RunItemsLonger(k: nat, m: nat, lay: Layout, armed: bool, w: seq<byte>)
    requires k <= m && !RunItems(k, lay, armed, w).Endless?
    ensures RunItems(m, lay, armed, w) == RunItems(k, lay, armed, w)
    decreases k, 0
  {
    if lay.More() {
      hide Run;
      RunLonger(k - 1, m - 1, lay.Head(), armed, w);
      var p := Run(k - 1, lay.Head(), armed, w);
      if p.Ok? { RunItemsLonger(k - 1, m - 1, lay.Rest(), p.armed, p.rest); }
    }
  }

  /** Where the parser does not report a loop, some number of iterations is enough. */
  lemma {:induction false} RunEnds(t: Type, armed: bool, w: seq<byte>) returns (k: nat)
    requires !Parse(t, armed, w).Loop?
    ensures Run(k, t, armed, w) == Parse(t, armed, w)
    decreases |w|, 0, armed
  {
    if armed || w == [] || ReadHeader(w).None? || ReadHeader(w).value.kind != List || !IsList(t) {
      k := 0;
      NoLoop(k, t, armed, w);
    } else {
      hide Parse, ParseItems, RunItems;
      var h := ReadHeader(w).value;
      ParseIsAsList(t, w);
      k := RunItemsEnds(LayoutOf(t), false, w[h.tag..h.tag + h.size]);
    }
  }

  lemma {:induction false} RunItemsEnds(lay: Layout, armed: bool, w: seq<byte>) returns (k: nat)
    requires !ParseItems(lay, armed, w).Endless?
    ensures RunItems(k, lay, armed, w) == ParseItems(lay, armed, w)
    decreases |w|, 1, armed, |lay.row|
  {
    if !lay.More() {
      k := 0;
    } else {
      hide Parse, ParseItems, Run, RunItems;
      ParseItemsStep(lay, armed, w);
      var p := Parse(lay.Head(), armed, w);
      var k1 := RunEnds(lay.Head(), armed, w);
      var k2 := 0;
      if p.Ok? { k2 := RunItemsEnds(lay.Rest(), p.armed, p.rest); }
      k := k1 + k2 + 1;
      RunItemsWithin(k1, k2, lay, armed, w);
    }
  }

  /** Iterations for the first item and for the others are enough for all. */
  lemma RunItemsWithin(k1: nat, k2: nat, lay: Layout, armed: bool, w: seq<byte>)
    requires lay.More() && !ParseItems(lay, armed, w).Endless?
    requires Run(k1, lay.Head(), armed, w) == Parse(lay.Head(), armed, w)
    requires var p := Parse(lay.Head(), armed, w);
             p.Ok? ==> RunItems(k2, lay.Rest(), p.armed, p.rest) == ParseItems(lay.Rest(), p.armed, p.rest)
    ensures RunItems(k1 + k2 + 1, lay, armed, w) == ParseItems(lay, armed, w)
  {
    hide Parse, ParseItems, Run, RunItems;
    var p := Parse(lay.Head(), armed, w);
    ParseItemsStep(lay, armed, w);
    RunItemsStep(k1 + k2 + 1, lay, armed, w);
    RunLonger(k1, k1 + k2, lay.Head(), armed, w);
    if p.Ok? { RunItemsLonger(k2, k1 + k2, lay.Rest(), p.armed, p.rest); }
  }

  /** The loop over the items of a list does not end, however many iterations it is given. */
  ghost predicate Unending(lay: Layout, armed: bool, w: seq<byte>)
  {
    forall k: nat :: RunItems(k, lay, armed, w).Endless?
  }

  /** The loop over the items of a list is reported as endless if and only if it has not ended after any number of
      iterations. */
  lemma EndlessIffUnending(lay: Layout, armed: bool, w: seq<byte>)
    ensures ParseItems(lay, armed, w).Endless? <==> Unending(lay, armed, w)
  {
    if ParseItems(lay, armed, w).Endless? {
      forall k: nat ensures RunItems(k, lay, armed, w).Endless? { RunItemsIsParse(k, lay, armed, w); }
    } else {
      var k := RunItemsEnds(lay, armed, w);
      assert !RunItems(k, lay, armed, w).Endless?;
    }
  }

  /** Some number of iterations is enough to decode the input. */
  ghost predicate EndsOn(t: Type, b: seq<byte>)
  {
    exists k: nat :: !Run(k, t, false, b).Loop?
  }

  /** Decoding is reported not to end if and only if it has not ended after any number of iterations. */
  lemma DivergesIffUnfinished(t: Type, b: seq<byte>)
    ensures DecodeSpec(t, b) == Diverges <==> !EndsOn(t, b)
  {
    if Parse(t, false, b).Loop? {
      forall k: nat ensures Run(k, t, false, b).Loop? { RunIsParse(k, t, false, b); }
    } else {
      var k := RunEnds(t, false, b);
      assert !Run(k, t, false, b).Loop?;
    }
  }
}
