/**
  The equilibrium engine as the sweep sees it.  The engine itself is a
  foreign numerical library; here its objects are logs of the calls the
  sweep makes on them:

  - an equilibrium specification is the sequence of declarations made on it;
  - an equilibrium-conditions object is a map from the quantity a setter
    targets to the value it was last given;
  - a chemical state is the sequence of substance additions made to it;
  - the solver is a function supplied by the caller (see `Solver`).
 */
module Engine {

  datatype Option<T> = None | Some(value: T)

  /** An element-molality residual: which input holds the target and which element it constrains. */
  datatype ElementMolalityResidual = ElementMolalityResidual(inputIndex: nat, element: string)

  /**
    The value of a residual at an equilibrium: the target held in input
    `inputIndex` of the input vector `w` minus the molality of the element
    that the engine computes (`molality`).
   */
  function Residual(res: ElementMolalityResidual, molality: string -> real, w: seq<real>): (r: real)
    requires res.inputIndex < |w|
    ensures r == 0.0 <==> molality(res.element) == w[res.inputIndex]
    ensures r > 0.0 <==> molality(res.element) < w[res.inputIndex]
  {
    w[res.inputIndex] - molality(res.element)
  }

  datatype EquationConstraint = EquationConstraint(id: string, residual: ElementMolalityResidual)

  /** One call made on an equilibrium specification. */
  datatype SpecCall =
    | DeclareTemperature
    | DeclarePressure
    | DeclareFugacity(species: string)
    | DeclarePH
    | AddInput(input: string)
    | AddEquation(equation: EquationConstraint)
    | OpenTo(element: string)

  /** An equilibrium specification: the declarations made on it, in order. */
  datatype Specs = Specs(calls: seq<SpecCall>)

  /** The named inputs of a specification, in the order they were added (an input's index is its position). */
  function Inputs(calls: seq<SpecCall>): seq<string>
  {
    if |calls| == 0 then []
    else
      var last := calls[|calls| - 1];
      Inputs(calls[..|calls| - 1]) + (if last.AddInput? then [last.input] else [])
  }

  /** The quantity a conditions setter targets. */
  datatype ConditionKey =
    | Temperature
    | Pressure
    | Fugacity(species: string)
    | PH
    | Input(name: string)

  /**
    The quantity a declaration expects the conditions object to supply
    before every solve, if any.  An `openTo` supplies none: it makes the
    amount of an element a quantity the solver determines (a titrant), and
    an equation constraint is an equation, not a quantity.
   */
  function Specified(call: SpecCall): Option<ConditionKey>
  {
    match call
    case DeclareTemperature => Some(Temperature)
    case DeclarePressure => Some(Pressure)
    case DeclareFugacity(species) => Some(Fugacity(species))
    case DeclarePH => Some(PH)
    case AddInput(input) => Some(Input(input))
    case AddEquation(_) => None
    case OpenTo(_) => None
  }

  /** Every quantity a sequence of declarations expects the conditions to supply. */
  function SpecifiedQuantities(calls: seq<SpecCall>): set<ConditionKey>
  {
    set i | 0 <= i < |calls| && Specified(calls[i]).Some? :: Specified(calls[i]).value
  }

  /** A value given to a conditions setter, with the unit string when the setter takes one. */
  datatype Setting<V> = WithUnits(value: V, units: string) | Bare(value: V)

  /** An equilibrium-conditions object: the setting last given for each targeted quantity. */
  type Conditions<V> = map<ConditionKey, Setting<V>>

  /** One `add(substance, amount, units)` made on a chemical state. */
  datatype Addition<V> = Addition(substance: string, amount: V, units: string)

  /** A chemical state: the substances added to it, in order. */
  datatype ChemicalState<V> = ChemicalState(additions: seq<Addition<V>>)

  /** What a solve reports: the equilibrated state and whether the optimisation succeeded. */
  datatype SolveOutcome<V> = SolveOutcome(state: ChemicalState<V>, succeeded: bool)

  /** The solver, left uninterpreted: any function from a start state and conditions to an outcome. */
  type Solver<!V> = (ChemicalState<V>, Conditions<V>) -> SolveOutcome<V>
}
