/**
  The constrained-equilibration controller: named constraints are
  registered against an equilibrium specification, a fixed initial state is
  built up, and the sweep solves every point of the grid of constraint
  values, recording the state and a status message for each point.
 */
module Equilibration {
  import opened Engine
  import opened MeshGrid

  // ---------------------------------------------------------------------
  // Data model.

  /** A constraint value as the caller gives it: one value or a sequence of values. */
  datatype Value<V> = Scalar(x: V) | Values(xs: seq<V>)

  /** The values a constraint contributes to the sweep grid: a single value is an axis of length one. */
  function Axis<V>(v: Value<V>): seq<V>
  {
    match v
    case Scalar(x) => [x]
    case Values(xs) => xs
  }

  /** A registered constraint: its name, its value(s) and the unit string passed to its setter. */
  datatype Constraint<V> = Constraint(name: string, value: Value<V>, units: string)

  /** The grid axes of a constraint list, in registration order. */
  function Axes<V>(cs: seq<Constraint<V>>): (axes: seq<seq<V>>)
    ensures |axes| == |cs|
    ensures forall i :: 0 <= i < |cs| ==> axes[i] == Axis(cs[i].value)
  {
    seq(|cs|, i requires 0 <= i < |cs| => Axis(cs[i].value))
  }

  /** How many values a constraint contributes: one for a single value, the length of a sequence. */
  function ValueCount<V>(v: Value<V>): nat
  {
    match v
    case Scalar(_) => 1
    case Values(xs) => |xs|
  }

  /** The product of the value counts of a constraint list. */
  function Combinations<V>(cs: seq<Constraint<V>>): nat
  {
    if |cs| == 0 then 1 else Combinations(cs[..|cs| - 1]) * ValueCount(cs[|cs| - 1].value)
  }

  /** The axes multiply out to the product of the value counts. */
  lemma {:induction false} AxesCombinations<V>(cs: seq<Constraint<V>>)
    ensures Radix.Prod(Lens(Axes(cs))) == Combinations(cs)
    decreases |cs|
  {
    if |cs| > 0 {
      var n := |cs| - 1;
      AxesCombinations(cs[..n]);
      assert Lens(Axes(cs))[..n] == Lens(Axes(cs[..n]));
      assert Lens(Axes(cs))[n] == ValueCount(cs[n].value);
    }
  }

  /** The controller: the specification, the registered constraints and the initial state. */
  datatype ConstrainedEquilibration<V> =
    ConstrainedEquilibration(specs: Specs, constraints: seq<Constraint<V>>, initialState: ChemicalState<V>)

  /** A controller for a chemical system: a fresh specification, no constraints, an empty state. */
  function Create<V>(): ConstrainedEquilibration<V>
  {
    ConstrainedEquilibration(Specs([]), [], ChemicalState([]))
  }

  const Sulfur := "S"
  const OxygenGas := "O2(g)"

  /** The constraint names that `addConstraint` and the sweep recognise. */
  const KnownNames: set<string> := {"temperature", "pressure", "fO2", "pH", Sulfur}

  // ---------------------------------------------------------------------
  // Registration.

  lemma InputsSnoc(calls: seq<SpecCall>, c: SpecCall)
    ensures Inputs(calls + [c]) == Inputs(calls) + (if c.AddInput? then [c.input] else [])
  {
    assert (calls + [c])[..|calls|] == calls;
  }

  /**
    Installs the total-sulfur constraint: a named input "S" holding the
    target molality, and an equation constraint "S" whose residual is that
    input minus the modelled molality of S.
   */
  function AddSConstraint(specs: Specs): (r: Specs)
    ensures |r.calls| == |specs.calls| + 2 && r.calls[..|specs.calls|] == specs.calls
    ensures Inputs(r.calls) == Inputs(specs.calls) + [Sulfur]
    ensures r.calls[|r.calls| - 1].AddEquation?
    ensures var e := r.calls[|r.calls| - 1].equation;
              && e.id == Sulfur
              && e.residual.element == Sulfur
              && e.residual.inputIndex == |Inputs(specs.calls)|
              && e.residual.inputIndex < |Inputs(r.calls)|
              && Inputs(r.calls)[e.residual.inputIndex] == Sulfur
  {
    var index := |Inputs(specs.calls)|;
    var withInput := specs.calls + [AddInput(Sulfur)];
    var equation := AddEquation(EquationConstraint(Sulfur, ElementMolalityResidual(index, Sulfur)));
    InputsSnoc(specs.calls, AddInput(Sulfur));
    InputsSnoc(withInput, equation);
    assert withInput + [equation] == specs.calls + [AddInput(Sulfur), equation];
    Specs(withInput + [equation])
  }

  /** The declarations `addConstraint` makes on the specification for a constraint name. */
  function Declare(specs: Specs, name: string): Specs
  {
    if name == "temperature" then Specs(specs.calls + [DeclareTemperature])
    else if name == "pressure" then Specs(specs.calls + [DeclarePressure])
    else if name == "fO2" then Specs(specs.calls + [DeclareFugacity(OxygenGas)])
    else if name == "pH" then Specs(specs.calls + [DeclarePH])
    else if name == Sulfur then Specs(AddSConstraint(specs).calls + [OpenTo(Sulfur)])
    else specs
  }

  /**
    `addConstraint(name, value, units="")`: records the constraint at the end
    of the list, makes the declarations for its name, and hands the value back.
   */
  function AddConstraint<V>(eq: ConstrainedEquilibration<V>, name: string, value: Value<V>, units: string := "")
    : (r: (ConstrainedEquilibration<V>, Value<V>))
    ensures r.1 == value
    ensures |r.0.constraints| == |eq.constraints| + 1
    ensures r.0.constraints[..|eq.constraints|] == eq.constraints
    ensures r.0.constraints[|eq.constraints|] == Constraint(name, value, units)
    ensures r.0.initialState == eq.initialState
    ensures |eq.specs.calls| <= |r.0.specs.calls| && r.0.specs.calls[..|eq.specs.calls|] == eq.specs.calls
    ensures r.0.specs != eq.specs <==> name in KnownNames
  {
    var registered := eq.(constraints := eq.constraints + [Constraint(name, value, units)],
                          specs := Declare(eq.specs, name));
    assert registered.constraints[..|eq.constraints|] == eq.constraints;
    (registered, value)
  }

  /** `initialize(substance, amount, units)`: adds a substance to the initial state and nothing else. */
  function Initialize<V>(eq: ConstrainedEquilibration<V>, substance: string, amount: V, units: string)
    : (r: ConstrainedEquilibration<V>)
    ensures |r.initialState.additions| == |eq.initialState.additions| + 1
    ensures r.initialState.additions[..|eq.initialState.additions|] == eq.initialState.additions
    ensures r.initialState.additions[|eq.initialState.additions|] == Addition(substance, amount, units)
    ensures r.constraints == eq.constraints && r.specs == eq.specs
  {
    var added := eq.initialState.additions + [Addition(substance, amount, units)];
    assert added[..|eq.initialState.additions|] == eq.initialState.additions;
    eq.(initialState := ChemicalState(added))
  }

  // ---------------------------------------------------------------------
  // Per-point conditions.

  /** The quantity the sweep's setter for a constraint name targets; unrecognised names have none. */
  function ConditionKeyOf(name: string): Option<ConditionKey>
  {
    if name == "temperature" then Some(Temperature)
    else if name == "pressure" then Some(Pressure)
    else if name == "fO2" then Some(Fugacity(OxygenGas))
    else if name == "pH" then Some(PH)
    else if name == Sulfur then Some(Input(name))
    else None
  }

  /** What the setter records for one grid value: the pH and S setters take no unit. */
  function SettingOf<V>(c: Constraint<V>, value: V): Setting<V>
  {
    if c.name == "pH" || c.name == Sulfur then Bare(value) else WithUnits(value, c.units)
  }

  /** Applies the setter matching one constraint to the conditions. */
  function SetCondition<V>(conditions: Conditions<V>, c: Constraint<V>, value: V): Conditions<V>
  {
    match ConditionKeyOf(c.name)
    case None => conditions
    case Some(key) => conditions[key := SettingOf(c, value)]
  }

  /** `for value, constraint in zip(point, constraints)`: the setters in registration order. */
  function ApplyPoint<V>(conditions: Conditions<V>, point: seq<V>, cs: seq<Constraint<V>>): Conditions<V>
    decreases |point|
  {
    var n := if |point| < |cs| then |point| else |cs|;
    if n == 0 then conditions
    else SetCondition(ApplyPoint(conditions, point[..n - 1], cs[..n - 1]), cs[n - 1], point[n - 1])
  }

  /** The conditions of a grid point applied to a fresh conditions object. */
  function PointConditions<V>(cs: seq<Constraint<V>>, point: seq<V>): Conditions<V>
  {
    ApplyPoint(map[], point, cs)
  }

  /** The quantities the setters of a constraint list target. */
  function TargetedKeys<V>(cs: seq<Constraint<V>>): set<ConditionKey>
  {
    set i | 0 <= i < |cs| && ConditionKeyOf(cs[i].name).Some? :: ConditionKeyOf(cs[i].name).value
  }

  lemma TargetedKeysSnoc<V>(cs: seq<Constraint<V>>, c: Constraint<V>)
    ensures TargetedKeys(cs + [c]) ==
            TargetedKeys(cs) + (if ConditionKeyOf(c.name).Some? then {ConditionKeyOf(c.name).value} else {})
  {
    var ext := cs + [c];
    forall key | key in TargetedKeys(ext)
      ensures key in TargetedKeys(cs) || ConditionKeyOf(c.name) == Some(key)
    {
      var i :| 0 <= i < |ext| && ConditionKeyOf(ext[i].name) == Some(key);
      if i < |cs| {
        assert ext[i] == cs[i];
      }
    }
    forall key | key in TargetedKeys(cs)
      ensures key in TargetedKeys(ext)
    {
      var i :| 0 <= i < |cs| && ConditionKeyOf(cs[i].name) == Some(key);
      assert ext[i] == cs[i];
    }
    if ConditionKeyOf(c.name).Some? {
      assert ext[|cs|] == c;
    }
  }

  /**
    Applying a point on top of existing conditions overrides exactly the
    quantities the point's setters target and keeps every other setting.
   */
  lemma {:induction false} ApplyPointOverrides<V>(conditions: Conditions<V>, point: seq<V>, cs: seq<Constraint<V>>)
    ensures ApplyPoint(conditions, point, cs) == conditions + PointConditions(cs, point)
    decreases |point|
  {
    var n := if |point| < |cs| then |point| else |cs|;
    if n == 0 {
      assert conditions + map[] == conditions;
    } else {
      ApplyPointOverrides(conditions, point[..n - 1], cs[..n - 1]);
      var own := PointConditions(cs[..n - 1], point[..n - 1]);
      match ConditionKeyOf(cs[n - 1].name)
      case None =>
      case Some(key) =>
        var s := SettingOf(cs[n - 1], point[n - 1]);
        assert (conditions + own)[key := s] == conditions + own[key := s];
    }
  }

  /** The quantities set at a grid point are exactly those its constraints' setters target. */
  lemma {:induction false} PointConditionsKeys<V>(cs: seq<Constraint<V>>, point: seq<V>)
    requires |point| == |cs|
    ensures PointConditions(cs, point).Keys == TargetedKeys(cs)
    decreases |cs|
  {
    var n := |cs|;
    if n > 0 {
      PointConditionsKeys(cs[..n - 1], point[..n - 1]);
      assert cs == cs[..n - 1] + [cs[n - 1]];
      TargetedKeysSnoc(cs[..n - 1], cs[n - 1]);
    }
  }

  /**
    The conditions object is shared by all points of a sweep, but every point
    overwrites every quantity the previous point set: whatever an earlier
    point left behind, each solve sees exactly its own point's conditions.
   */
  lemma OverwritesShared<V>(cs: seq<Constraint<V>>, before: Conditions<V>, point: seq<V>)
    requires |point| == |cs| && before.Keys <= TargetedKeys(cs)
    ensures ApplyPoint(before, point, cs) == PointConditions(cs, point)
    ensures PointConditions(cs, point).Keys == TargetedKeys(cs)
  {
    ApplyPointOverrides(before, point, cs);
    PointConditionsKeys(cs, point);
    assert before + PointConditions(cs, point) == PointConditions(cs, point);
  }

  /** In particular, the conditions left by one grid point do not leak into the next. */
  lemma PointConditionsIndependent<V>(cs: seq<Constraint<V>>, previous: seq<V>, point: seq<V>)
    requires |previous| == |cs| && |point| == |cs|
    ensures ApplyPoint(PointConditions(cs, previous), point, cs) == PointConditions(cs, point)
  {
    PointConditionsKeys(cs, previous);
    OverwritesShared(cs, PointConditions(cs, previous), point);
  }

  /**
    When several constraints target the same quantity, the setting in effect
    for the solve is that of the last one registered.
   */
  lemma {:induction false} LastRegisteredWins<V>(cs: seq<Constraint<V>>, point: seq<V>, i: nat)
    requires |point| == |cs| && i < |cs| && ConditionKeyOf(cs[i].name).Some?
    requires forall j :: i < j < |cs| ==> ConditionKeyOf(cs[j].name) != ConditionKeyOf(cs[i].name)
    ensures ConditionKeyOf(cs[i].name).value in PointConditions(cs, point)
    ensures PointConditions(cs, point)[ConditionKeyOf(cs[i].name).value] == SettingOf(cs[i], point[i])
    decreases |cs|
  {
    var n := |cs|;
    if i < n - 1 {
      LastRegisteredWins(cs[..n - 1], point[..n - 1], i);
    }
  }

  // ---------------------------------------------------------------------
  // The sweep.

  const SuccessMessage := "Successful computation!"
  const FailureMessage := "Computation has failed!"

  /** The status recorded for a solve: one message for success, the other for failure. */
  function Status(succeeded: bool): (s: string)
    ensures s == SuccessMessage <==> succeeded
    ensures s == FailureMessage <==> !succeeded
  {
    if succeeded then SuccessMessage else FailureMessage
  }

  /** The grid points of a controller's sweep, in sweep order. */
  function SweepGrid<V>(eq: ConstrainedEquilibration<V>): seq<seq<V>>
  {
    Grid(Axes(eq.constraints))
  }

  /**
    The sweep has one point per combination of constraint values: the
    product of the value counts, a single value counting once; with no
    constraints there is no point at all.
   */
  lemma SweepSize<V>(eq: ConstrainedEquilibration<V>)
    ensures |SweepGrid(eq)| == if |eq.constraints| == 0 then 0 else Combinations(eq.constraints)
  {
    GridSize(Axes(eq.constraints));
    AxesCombinations(eq.constraints);
  }

  /** The arguments of one call of the solver. */
  datatype SolveCall<V> = SolveCall(state: ChemicalState<V>, conditions: Conditions<V>)

  /**
    The inner loop of the sweep: runs the setter of every constraint, in
    registration order, with the point's value for it.  Settings of
    quantities the point does not target survive; the others are replaced.
   */
  method SetPoint<V>(conditions: Conditions<V>, point: seq<V>, cs: seq<Constraint<V>>)
    returns (after: Conditions<V>)
    requires |point| == |cs|
    ensures after == conditions + PointConditions(cs, point)
    ensures forall key :: key in conditions && key !in TargetedKeys(cs) ==>
              key in after && after[key] == conditions[key]
  {
    after := conditions;
    var j := 0;
    while j < |cs|
      invariant j <= |cs|
      invariant after == ApplyPoint(conditions, point[..j], cs[..j])
    {
      assert point[..j + 1][..j] == point[..j] && cs[..j + 1][..j] == cs[..j];
      after := SetCondition(after, cs[j], point[j]);
      j := j + 1;
    }
    assert point[..j] == point && cs[..j] == cs;
    ApplyPointOverrides(conditions, point, cs);
    PointConditionsKeys(cs, point);
  }

  /**
    The solve loop of the sweep over a sequence of points: each point is
    solved exactly once, in order, from the initial state, with the point's
    own conditions, and its state and status are recorded at the point's
    index.  A failed solve skips nothing.  One conditions object is reused
    for all points, as `equilibrate` does.
   */
  method SolvePoints<V>(initialState: ChemicalState<V>, cs: seq<Constraint<V>>, points: seq<seq<V>>, solve: Solver<V>)
    returns (states: seq<ChemicalState<V>>, statuses: seq<string>, calls: seq<SolveCall<V>>)
    requires forall i :: 0 <= i < |points| ==> |points[i]| == |cs|
    ensures |states| == |statuses| == |calls| == |points|
    ensures forall i :: 0 <= i < |calls| ==>
              calls[i] == SolveCall(initialState, PointConditions(cs, points[i]))
    ensures forall i :: 0 <= i < |calls| ==>
              && states[i] == solve(calls[i].state, calls[i].conditions).state
              && statuses[i] == Status(solve(calls[i].state, calls[i].conditions).succeeded)
  {
    var conditions: Conditions<V> := map[];
    states, statuses, calls := [], [], [];
    var k := 0;
    while k < |points|
      invariant k <= |points|
      invariant |states| == k && |statuses| == k && |calls| == k
      invariant forall i :: 0 <= i < k ==> calls[i] == SolveCall(initialState, PointConditions(cs, points[i]))
      invariant forall i :: 0 <= i < k ==>
                  && states[i] == solve(calls[i].state, calls[i].conditions).state
                  && statuses[i] == Status(solve(calls[i].state, calls[i].conditions).succeeded)
      invariant conditions.Keys <= TargetedKeys(cs)
    {
      var point := points[k];
      var before := conditions;
      conditions := SetPoint(conditions, point, cs);
      OverwritesShared(cs, before, point);
      ApplyPointOverrides(before, point, cs);
      var call := SolveCall(initialState, conditions);
      var outcome := solve(call.state, call.conditions);
      calls := calls + [call];
      states := states + [outcome.state];
      statuses := statuses + [Status(outcome.succeeded)];
      k := k + 1;
    }
  }

  /**
    `equilibrate`: solves every grid point once, in sweep order, each from a
    copy of the initial state and with the point's conditions, and records
    the resulting state and status.  `calls` is the sequence of solver calls
    made; the controller itself is left unchanged.
   */
  method Equilibrate<V>(eq: ConstrainedEquilibration<V>, solve: Solver<V>)
    returns (states: seq<ChemicalState<V>>, statuses: seq<string>, calls: seq<SolveCall<V>>)
    ensures |states| == |statuses| == |calls| == |SweepGrid(eq)|
    ensures |calls| == if |eq.constraints| == 0 then 0 else Radix.Prod(Lens(Axes(eq.constraints)))
    ensures forall i :: 0 <= i < |calls| ==>
              calls[i] == SolveCall(eq.initialState, PointConditions(eq.constraints, SweepGrid(eq)[i]))
    ensures forall i :: 0 <= i < |calls| ==>
              && states[i] == solve(calls[i].state, calls[i].conditions).state
              && statuses[i] == Status(solve(calls[i].state, calls[i].conditions).succeeded)
  {
    var grid := SweepGrid(eq);
    GridSize(Axes(eq.constraints));
    if |eq.constraints| > 0 {
      GridColumns(Axes(eq.constraints));
    }
    states, statuses, calls := SolvePoints(eq.initialState, eq.constraints, grid, solve);
  }
}
