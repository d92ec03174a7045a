/** The repaints a window is waiting for, shared between several outputs. */
module WindowDamage {
  import opened Regions
  import opened Sequences

  datatype Output = Output(id: nat, geometry: Region)

  function Translated(region: Region, d: Pixel): Region {
    set p | p in region :: Pixel(p.x + d.x, p.y + d.y)
  }

  function Back(d: Pixel): Pixel {
    Pixel(-d.x, -d.y)
  }

  lemma TranslatedMember(region: Region, d: Pixel, p: Pixel)
    ensures p in Translated(region, d) <==> Pixel(p.x - d.x, p.y - d.y) in region
  {
  }

  /** `repaints` is relative to the window's position, `layerRepaints` is not. `pending` are the
    * outputs that have not repainted the window yet, `outputs` all there are. */
  datatype Damage = Damage(
    repaints: Region,
    layerRepaints: Region,
    pending: seq<Output>,
    pos: Pixel,
    outputs: seq<Output>)

  function Repaints(d: Damage): Region {
    Translated(d.repaints, d.pos) + d.layerRepaints
  }

  function Acquire(pending: seq<Output>, outputs: seq<Output>, region: Region): seq<Output> {
    if outputs == [] then pending
    else
      var acquired := Acquire(pending, outputs[..|outputs| - 1], region);
      var out := outputs[|outputs| - 1];
      if out in acquired || region * out.geometry == {} then acquired else acquired + [out]
  }

  /** The part of `region` that no output in `pending` shows. */
  function Exclusive(region: Region, pending: seq<Output>): Region {
    if pending == [] then region
    else Exclusive(region, pending[..|pending| - 1]) - pending[|pending| - 1].geometry
  }

  /** A full repaint replaces the relative repaints by what is visible of the window. */
  datatype Op =
    | AddRepaint(region: Region)
    | AddLayerRepaint(region: Region)
    | AddFullRepaint(visible: Region)
    | Reset(output: Output)
    | Moved(pos: Pixel)
    | OutputAdded(output: Output)
    | OutputRemoved(output: Output)

  function Apply(d: Damage, op: Op): Damage {
    match op
    case AddRepaint(region) =>
      d.(repaints := d.repaints + region, pending := Acquire(d.pending, d.outputs, Translated(region, d.pos)))
    case AddLayerRepaint(region) =>
      d.(layerRepaints := d.layerRepaints + region, pending := Acquire(d.pending, d.outputs, region))
    case AddFullRepaint(visible) =>
      d.(repaints := Translated(visible, Back(d.pos)), pending := Acquire(d.pending, d.outputs, visible))
    case Reset(output) =>
      var pending := RemoveAll(d.pending, output);
      if pending == [] then d.(repaints := {}, layerRepaints := {}, pending := [])
      else
        var reset := Exclusive(output.geometry, pending);
        d.(repaints := Translated(Translated(d.repaints, d.pos) - reset, Back(d.pos)),
           layerRepaints := d.layerRepaints - reset,
           pending := pending)
    case Moved(pos) => d.(pos := pos)
    case OutputAdded(output) => d.(outputs := d.outputs + [output])
    case OutputRemoved(output) =>
      d.(outputs := RemoveAll(d.outputs, output), pending := RemoveAll(d.pending, output))
  }

  /** The window as the damage functions see it. */
  class Window {
    var outputs: seq<Output>
    var pos: Pixel
    var repaintsRegion: Region
    var layerRepaintsRegion: Region
    var repaintOutputs: seq<Output>

    ghost function State(): Damage
      reads this
    {
      Damage(repaintsRegion, layerRepaintsRegion, repaintOutputs, pos, outputs)
    }

    constructor (outputs: seq<Output>, pos: Pixel)
      ensures State() == Clean(pos, outputs)
    {
      this.outputs, this.pos := outputs, pos;
      repaintsRegion, layerRepaintsRegion, repaintOutputs := {}, {}, [];
    }

    method AcquireRepaintOutputs(region: Region)
      modifies this`repaintOutputs
      ensures repaintOutputs == Acquire(old(repaintOutputs), outputs, region)
    {
      for i := 0 to |outputs|
        invariant repaintOutputs == Acquire(old(repaintOutputs), outputs[..i], region)
      {
        assert outputs[..i + 1][..i] == outputs[..i];
        if outputs[i] !in repaintOutputs && region * outputs[i].geometry != {} {
          repaintOutputs := repaintOutputs + [outputs[i]];
        }
      }
      assert outputs[..|outputs|] == outputs;
    }

    method AddRepaint(region: Region)
      modifies this
      ensures State() == Apply(old(State()), Op.AddRepaint(region))
    {
      repaintsRegion := repaintsRegion + region;
      AcquireRepaintOutputs(Translated(region, pos));
    }

    method AddLayerRepaint(region: Region)
      modifies this
      ensures State() == Apply(old(State()), Op.AddLayerRepaint(region))
    {
      layerRepaintsRegion := layerRepaintsRegion + region;
      AcquireRepaintOutputs(region);
    }

    method AddFullRepaint(visible: Region)
      modifies this
      ensures State() == Apply(old(State()), Op.AddFullRepaint(visible))
    {
      repaintsRegion := Translated(visible, Back(pos));
      AcquireRepaintOutputs(visible);
    }

    method RemoveRepaintOutput(output: Output)
      modifies this`repaintOutputs
      ensures repaintOutputs == RemoveAll(old(repaintOutputs), output)
    {
      var kept: seq<Output> := [];
      for i := 0 to |repaintOutputs|
        invariant repaintOutputs == old(repaintOutputs) && kept == RemoveAll(repaintOutputs[..i], output)
      {
        assert repaintOutputs[..i + 1][..i] == repaintOutputs[..i];
        if repaintOutputs[i] != output {
          kept := kept + [repaintOutputs[i]];
        }
      }
      assert repaintOutputs[..|repaintOutputs|] == repaintOutputs;
      repaintOutputs := kept;
    }

    method RemoveOutput(output: Output)
      modifies this
      ensures State() == Apply(old(State()), OutputRemoved(output))
    {
      outputs := RemoveAll(outputs, output);
      RemoveRepaintOutput(output);
    }

    method ResetRepaints(output: Output)
      modifies this
      ensures State() == Apply(old(State()), Op.Reset(output))
    {
      RemoveRepaintOutput(output);

      if repaintOutputs == [] {
        repaintsRegion, layerRepaintsRegion := {}, {};
        return;
      }

      var resetRegion := output.geometry;
      for i := 0 to |repaintOutputs|
        invariant resetRegion == Exclusive(output.geometry, repaintOutputs[..i])
      {
        assert repaintOutputs[..i + 1][..i] == repaintOutputs[..i];
        resetRegion := resetRegion - repaintOutputs[i].geometry;
      }
      assert repaintOutputs[..|repaintOutputs|] == repaintOutputs;

      repaintsRegion := Translated(repaintsRegion, pos);
      repaintsRegion := repaintsRegion - resetRegion;
      repaintsRegion := Translated(repaintsRegion, Back(pos));
      layerRepaintsRegion := layerRepaintsRegion - resetRegion;
    }
  }

  // ---------------------------------------------------------------------------------------------

  lemma {:induction false} AcquireMember(pending: seq<Output>, outputs: seq<Output>, region: Region, o: Output)
    ensures o in Acquire(pending, outputs, region) <==>
            o in pending || (o in outputs && region * o.geometry != {})
  {
    if outputs != [] {
      AcquireMember(pending, outputs[..|outputs| - 1], region, o);
      assert outputs == outputs[..|outputs| - 1] + [outputs[|outputs| - 1]];
    }
  }

  lemma {:induction false} ExclusiveMember(region: Region, pending: seq<Output>, p: Pixel)
    ensures p in Exclusive(region, pending) <==> p in region && forall o :: o in pending ==> p !in o.geometry
  {
    if pending != [] {
      ExclusiveMember(region, pending[..|pending| - 1], p);
      assert pending == pending[..|pending| - 1] + [pending[|pending| - 1]];
    }
  }

  // ---------------------------------------------------------------------------------------------
  // One step

  /** Something to repaint: a place on the window, which moves with it, or one on the screen. */
  datatype Spot = OnWindow(p: Pixel) | OnScreen(p: Pixel) {
    function At(pos: Pixel): Pixel {
      if OnWindow? then Pixel(p.x + pos.x, p.y + pos.y) else p
    }

    predicate RecordedIn(d: Damage) {
      if OnWindow? then p in d.repaints else p in d.layerRepaints
    }

    /** Whether the operation asks for a repaint here. */
    predicate AddedBy(op: Op, pos: Pixel) {
      match op
      case AddRepaint(region) => OnWindow? && p in region
      case AddLayerRepaint(region) => OnScreen? && p in region
      case AddFullRepaint(visible) => OnWindow? && At(pos) in visible
      case _ => false
    }
  }

  lemma TranslatedBack(region: Region, pos: Pixel, q: Pixel)
    ensures q in Translated(region, Back(pos)) <==> Pixel(q.x + pos.x, q.y + pos.y) in region
  {
    TranslatedMember(region, Back(pos), q);
  }

  /** The repaints are what is recorded, seen on the screen. */
  lemma RepaintsExactly(d: Damage, p: Pixel)
    ensures p in Repaints(d) <==>
            OnScreen(p).RecordedIn(d) || OnWindow(Pixel(p.x - d.pos.x, p.y - d.pos.y)).RecordedIn(d)
  {
    TranslatedMember(d.repaints, d.pos, p);
  }

  /** What a reset takes away: everything once no output is pending any more, else what the reset
    * output shows and no pending one does. */
  lemma ResetExactly(d: Damage, output: Output, spot: Spot)
    ensures var d', p := Apply(d, Reset(output)), spot.At(d.pos);
            && (spot.RecordedIn(d') <==>
                  spot.RecordedIn(d) && d'.pending != [] &&
                  (p in output.geometry ==> exists o :: o in d'.pending && p in o.geometry))
            && (forall o :: o in d'.pending <==> o in d.pending && o != output)
            && d'.pos == d.pos && d'.outputs == d.outputs
  {
    var d', p := Apply(d, Reset(output)), spot.At(d.pos);
    forall o
      ensures o in d'.pending <==> o in d.pending && o != output
    {
      RemoveAllMember(d.pending, output, o);
    }
    var reset := Exclusive(output.geometry, d'.pending);
    ExclusiveMember(output.geometry, d'.pending, p);
    if spot.OnWindow? {
      TranslatedBack(Translated(d.repaints, d.pos) - reset, d.pos, spot.p);
      TranslatedMember(d.repaints, d.pos, p);
      assert Pixel(p.x - d.pos.x, p.y - d.pos.y) == spot.p;
    }
  }

  predicate IsAddition(op: Op) {
    op.AddRepaint? || op.AddLayerRepaint? || op.AddFullRepaint?
  }

  /** What an addition adds, seen on the screen. */
  function Added(op: Op, pos: Pixel): Region {
    match op
    case AddRepaint(region) => Translated(region, pos)
    case AddLayerRepaint(region) => region
    case AddFullRepaint(visible) => visible
    case _ => {}
  }

  lemma AddedExactly(op: Op, pos: Pixel, spot: Spot)
    ensures spot.AddedBy(op, pos) <==>
            IsAddition(op) && spot.OnScreen? == op.AddLayerRepaint? && spot.At(pos) in Added(op, pos)
  {
    if op.AddRepaint? && spot.OnWindow? {
      TranslatedMember(op.region, pos, spot.At(pos));
    }
  }

  /** What an addition adds, and which outputs become pending. Only a full repaint forgets anything:
    * what was recorded for the window outside its visible part. */
  lemma AddExactly(d: Damage, op: Op, spot: Spot, o: Output)
    requires IsAddition(op)
    ensures var d' := Apply(d, op);
            && (spot.RecordedIn(d') <==>
                  spot.AddedBy(op, d.pos) || (spot.RecordedIn(d) && !(op.AddFullRepaint? && spot.OnWindow?)))
            && (o in d'.pending <==>
                  o in d.pending ||
                  (o in d.outputs && exists s: Spot :: s.AddedBy(op, d.pos) && s.At(d.pos) in o.geometry))
            && d'.pos == d.pos && d'.outputs == d.outputs
  {
    var added := Added(op, d.pos);
    AcquireMember(d.pending, d.outputs, added, o);
    if p :| p in added * o.geometry {
      var s := if op.AddLayerRepaint? then OnScreen(p) else OnWindow(Pixel(p.x - d.pos.x, p.y - d.pos.y));
      AddedExactly(op, d.pos, s);
      assert s.At(d.pos) == p;
    }
    forall s: Spot | s.AddedBy(op, d.pos) && s.At(d.pos) in o.geometry
      ensures added * o.geometry != {}
    {
      AddedExactly(op, d.pos, s);
      assert s.At(d.pos) in added * o.geometry;
    }
    if op.AddFullRepaint? && spot.OnWindow? {
      TranslatedBack(op.visible, d.pos, spot.p);
    }
  }

  /** What the other operations change: where the window is, which outputs there are, and that an output
    * that is gone is pending no more. */
  lemma ChangeExactly(d: Damage, op: Op, o: Output)
    requires op.Moved? || op.OutputAdded? || op.OutputRemoved?
    ensures var d' := Apply(d, op);
            && d'.repaints == d.repaints && d'.layerRepaints == d.layerRepaints
            && d'.pos == (if op.Moved? then op.pos else d.pos)
            && (o in d'.outputs <==>
                  (o in d.outputs && op != OutputRemoved(o)) || op == OutputAdded(o))
            && (o in d'.pending <==> o in d.pending && op != OutputRemoved(o))
  {
    if op.OutputRemoved? {
      RemoveAllMember(d.outputs, op.output, o);
      RemoveAllMember(d.pending, op.output, o);
    }
  }

  lemma {:induction false} AcquireNoDup(pending: seq<Output>, outputs: seq<Output>, region: Region)
    requires NoDup(pending)
    ensures NoDup(Acquire(pending, outputs, region))
  {
    if outputs != [] {
      AcquireNoDup(pending, outputs[..|outputs| - 1], region);
    }
  }

  /** No output is ever pending twice. */
  lemma PendingOnce(d: Damage, op: Op)
    requires NoDup(d.pending)
    ensures NoDup(Apply(d, op).pending)
  {
    match op
    case AddRepaint(region) => AcquireNoDup(d.pending, d.outputs, Translated(region, d.pos));
    case AddLayerRepaint(region) => AcquireNoDup(d.pending, d.outputs, region);
    case AddFullRepaint(visible) => AcquireNoDup(d.pending, d.outputs, visible);
    case Reset(output) => RemoveAllNoDup(d.pending, output);
    case OutputRemoved(output) => RemoveAllNoDup(d.pending, output);
    case _ =>
  }

  // ---------------------------------------------------------------------------------------------
  // Runs

  function Clean(pos: Pixel, outputs: seq<Output>): Damage {
    Damage({}, {}, [], pos, outputs)
  }

  function Run(ops: seq<Op>, start: Damage): Damage {
    if ops == [] then start
    else Apply(Run(ops[..|ops| - 1], start), ops[|ops| - 1])
  }

  /** Output `o` was asked to repaint the spot, and has neither been reset nor removed since; nor did
    * the window move so that `o` no longer shows the spot, nor did it become invisible. */
  predicate Owed(ops: seq<Op>, start: Damage, o: Output, spot: Spot) {
    ops != [] &&
    var front, op := ops[..|ops| - 1], ops[|ops| - 1];
    var d := Run(front, start);
    || (spot.AddedBy(op, d.pos) && o in d.outputs && spot.At(d.pos) in o.geometry)
    || (Owed(front, start, o, spot) && StaysOwed(op, d.pos, o, spot))
  }

  predicate StaysOwed(op: Op, pos: Pixel, o: Output, spot: Spot) {
    match op
    case Reset(output) => output != o
    case OutputRemoved(output) => output != o
    case Moved(pos') => spot.At(pos') in o.geometry
    case AddFullRepaint(visible) => spot.OnWindow? ==> spot.At(pos) in visible
    case _ => true
  }

  lemma {:induction false} OwedIsShown(ops: seq<Op>, start: Damage, o: Output, spot: Spot)
    requires Owed(ops, start, o, spot)
    ensures spot.At(Run(ops, start).pos) in o.geometry
  {
    var front := ops[..|ops| - 1];
    if Owed(front, start, o, spot) {
      OwedIsShown(front, start, o, spot);
    }
  }

  /** Damage is never lost: under any order of additions, resets, moves of the window and changes of
    * the outputs, what an output still owes stays recorded, and the output stays pending. */
  lemma {:induction false} DamageIsNeverLost(ops: seq<Op>, start: Damage, o: Output, spot: Spot)
    requires Owed(ops, start, o, spot)
    ensures spot.RecordedIn(Run(ops, start)) && o in Run(ops, start).pending
  {
    var front, op := ops[..|ops| - 1], ops[|ops| - 1];
    var d := Run(front, start);
    if Owed(front, start, o, spot) {
      OwedIsShown(front, start, o, spot);
      DamageIsNeverLost(front, start, o, spot);
    }
    if IsAddition(op) {
      AddExactly(d, op, spot, o);
    } else if op.Reset? {
      ResetExactly(d, op.output, spot);
    } else if op.OutputRemoved? {
      RemoveAllMember(d.pending, op.output, o);
    }
  }

  predicate Disjoint(outputs: seq<Output>) {
    forall i, j :: i in outputs && j in outputs && i != j ==> i.geometry !! j.geometry
  }

  /** The window stays where it is and no output is added; resets are for known outputs. */
  predicate IsStill(ops: seq<Op>, outputs: seq<Output>) {
    forall op :: op in ops ==> !op.Moved? && !op.OutputAdded? && (op.Reset? ==> op.output in outputs)
  }

  /** Nor is it painted twice: where no two outputs overlap, a recorded spot is one its output still
    * owes. */
  lemma {:induction false} DamageIsExact(ops: seq<Op>, pos: Pixel, outputs: seq<Output>, o: Output, spot: Spot)
    requires Disjoint(outputs) && IsStill(ops, outputs)
    requires o in Run(ops, Clean(pos, outputs)).outputs && spot.At(pos) in o.geometry
    ensures spot.RecordedIn(Run(ops, Clean(pos, outputs))) <==> Owed(ops, Clean(pos, outputs), o, spot)
  {
    var start := Clean(pos, outputs);
    if Owed(ops, start, o, spot) {
      DamageIsNeverLost(ops, start, o, spot);
    } else if ops != [] {
      var front, op := ops[..|ops| - 1], ops[|ops| - 1];
      var d := Run(front, start);
      assert op in ops && forall p :: p in front ==> p in ops;
      OutputsRemain(front, pos, outputs);
      if op.OutputRemoved? {
        RemoveAllMember(d.outputs, op.output, o);
      }
      DamageIsExact(front, pos, outputs, o, spot);
      if IsAddition(op) {
        AddExactly(d, op, spot, o);
      } else if op.Reset? {
        ResetExactly(d, op.output, spot);
      }
    }
  }

  lemma {:induction false} OutputsRemain(ops: seq<Op>, pos: Pixel, outputs: seq<Output>)
    requires IsStill(ops, outputs)
    ensures var d := Run(ops, Clean(pos, outputs));
            d.pos == pos && forall o :: o in d.pending || o in d.outputs ==> o in outputs
  {
    if ops != [] {
      var front, op := ops[..|ops| - 1], ops[|ops| - 1];
      assert op in ops && forall p :: p in front ==> p in ops;
      OutputsRemain(front, pos, outputs);
      var d := Run(front, Clean(pos, outputs));
      forall o
        ensures o in Apply(d, op).pending || o in Apply(d, op).outputs ==> o in outputs
      {
        if IsAddition(op) {
          AddExactly(d, op, OnScreen(pos), o);
        } else if op.Reset? {
          ResetExactly(d, op.output, OnScreen(pos));
        } else {
          RemoveAllMember(d.pending, op.output, o);
          RemoveAllMember(d.outputs, op.output, o);
        }
      }
    }
  }

  /** Outputs may overlap: whatever is recorded where some output shows it, an output that shows it is
    * still going to repaint it. */
  lemma {:induction false} NoDamageIsStranded(ops: seq<Op>, pos: Pixel, outputs: seq<Output>, spot: Spot)
    requires IsStill(ops, outputs) && forall op :: op in ops ==> !op.OutputRemoved?
    requires exists o :: o in outputs && spot.At(pos) in o.geometry
    ensures var d := Run(ops, Clean(pos, outputs));
            && d.outputs == outputs
            && (spot.RecordedIn(d) ==> exists o :: o in d.pending && spot.At(pos) in o.geometry)
  {
    if ops != [] {
      var front, op := ops[..|ops| - 1], ops[|ops| - 1];
      var d := Run(front, Clean(pos, outputs));
      assert op in ops && forall p :: p in front ==> p in ops;
      NoDamageIsStranded(front, pos, outputs, spot);
      OutputsRemain(front, pos, outputs);
      if op.Reset? {
        ResetExactly(d, op.output, spot);
      } else {
        forall o
          ensures o in d.pending ==> o in Apply(d, op).pending
          ensures o in outputs && spot.AddedBy(op, pos) && spot.At(pos) in o.geometry ==> o in Apply(d, op).pending
          ensures spot.RecordedIn(Apply(d, op)) ==> spot.AddedBy(op, pos) || spot.RecordedIn(d)
        {
          AddExactly(d, op, spot, o);
        }
      }
    }
  }

  /** Once the last pending output is reset, nothing is left to repaint. */
  lemma LastResetClearsAll(d: Damage, output: Output)
    requires forall o :: o in d.pending ==> o == output
    ensures Apply(d, Reset(output)) == Clean(d.pos, d.outputs)
  {
    if RemoveAll(d.pending, output) != [] {
      RemoveAllMember(d.pending, output, RemoveAll(d.pending, output)[0]);
      assert false;
    }
  }
}
