# Constrained equilibration sweep — a Dafny model

This project models the orchestration core of a parametric chemical-equilibrium
driver (`source/equilibration.py`). A `ConstrainedEquilibration` controller
registers named constraints (`temperature`, `pressure`, `fO2`, `pH` and the
custom total-sulfur constraint `S`), each with one value or a sequence of
values and a unit string. Each registration also makes the matching
declaration on the equilibrium specification. `initialize` builds up the
initial chemical state. `equilibrate` expands the Cartesian product of the
constraint values with numpy's `meshgrid` (default `'xy'` indexing), flattens
it and zips it into grid points, then solves every point from a copy of the
initial state and records the state and a status message.

The equilibrium engine is a foreign numerical library, so it stays abstract:

- a specification is the log of declarations made on it (`Engine.Specs`);
- a conditions object is a map from the quantity a setter targets to the
  setting it last received (`Engine.Conditions`);
- a chemical state is the log of substances added to it (`Engine.ChemicalState`);
- the solver is a function the caller supplies (`Engine.Solver`).

Files:

- `radix.dfy` (`Radix`): the row-major offset and multi-index bijection behind C-order flattening.
- `meshgrid.dfy` (`MeshGrid`, `MeshGridOrder`): the sweep grid as `equilibrate` builds it (meshgrid, flatten, zip) and an independent reference for it. The reference is the row-major product of the axes with the first two exchanged. The file also holds the grid's size, its order and the fact that it enumerates every combination exactly once.
- `engine.dfy` (`Engine`): the engine's objects as call logs, and the element-molality residual.
- `equilibration.dfy` (`Equilibration`): constraints, registration, initialization, the per-point setters and the solve loop.
- `dispatch.dfy` (`Dispatch`): the registration dispatch and the per-point setter dispatch agree.

Three behaviours of the code are worth stating up front:

- Grid order. `np.meshgrid` with its default `'xy'` indexing exchanges the
  first two axes. So with two or more constraints the second-registered axis
  varies slowest, then the first, then the third and later ones, with the
  last varying fastest. For A=[a1,a2], B=[b1,b2] the sweep visits
  (a1,b1), (a2,b1), (a1,b2), (a2,b2) (`MeshGridOrder.TwoAxisExample`).
- No constraints. `np.meshgrid()` returns no arrays and `zip()` over nothing
  yields no points, so nothing is solved and both result lists are empty
  (`MeshGridOrder.NoAxes`, `Equilibration.Equilibrate`).
- Per-point start state. Every point starts from a fresh copy of
  `initial_state`, not from the previous point's state
  (`Equilibration.SolvePoints`).

## Model

| member | source | states |
|---|---|---|
| Equilibration.AddConstraint | source/equilibration.py:37-53 | appends exactly one descriptor with the given name, value and units after the earlier ones, which stay unchanged; returns the value unchanged; leaves the initial state alone; only extends the specification, and changes it exactly when the name is one of the five recognised names |
| Equilibration.AddSConstraint | source/equilibration.py:5-17 | adds the input "S" and an equation constraint "S"; the residual reads the newly added input (index `idx_S`, even when an earlier "S" input exists) for element S; earlier declarations are kept |
| Engine.Residual | source/equilibration.py:11-14 | the S residual is zero exactly when the modelled molality equals the target input, and positive exactly when the molality is below the target |
| Dispatch.SingleDeclaration | source/equilibration.py:41-48 | temperature, pressure, fO2 and pH each append exactly one declaration, and it declares as specified the quantity that the sweep's setter for that name assigns |
| Dispatch.SulfurDeclaration | source/equilibration.py:49-51 | S appends an input "S", an equation "S" whose residual reads that new input and is zero exactly when the molality of S equals it, and an opening of the system to S |
| Dispatch.DeclareSpecified | source/equilibration.py:41-51 | registering a name adds to the specified quantities (those the conditions must supply) exactly the quantity its setter targets; an unrecognised name adds none, and the S titrant (`openTo`) is not one of them |
| Dispatch.RegisteredSpecified | source/equilibration.py:37-53 | registering a constraint list from a fresh controller records that list in order and declares as specified exactly the quantities its setters target |
| Dispatch.PointSuppliesSpecified | source/equilibration.py:78-88 | at every grid point the setters supply exactly the quantities registration declared as specified: none is left unset and none is undeclared |
| Equilibration.Create | source/equilibration.py:31-35 | a controller starts with an empty specification, no constraints and an empty initial state; see `Dispatch.RegisteredSpecified`, which registers from it |
| Equilibration.SweepSize | source/equilibration.py:62-75 | the sweep has exactly as many points as there are combinations of constraint values (the product of the value counts, a single value counting once), and none when no constraint is registered |
| Equilibration.Declare | source/equilibration.py:41-51 | the registration dispatch; see `Dispatch.SingleDeclaration`, `Dispatch.SulfurDeclaration` and `Dispatch.DeclareSpecified` |
| Equilibration.Initialize | source/equilibration.py:55-56 | appends one substance addition to the initial state; earlier additions, constraints and specification are unchanged |
| Equilibration.SetCondition | source/equilibration.py:79-88 | the setter dispatch for one constraint; see `Equilibration.ApplyPointOverrides` and `Equilibration.LastRegisteredWins` |
| Equilibration.ApplyPoint | source/equilibration.py:78-88 | the setters of one point in registration order; see `Equilibration.ApplyPointOverrides` and `Equilibration.OverwritesShared` |
| Equilibration.PointConditions | source/equilibration.py:78-88 | a point's own settings; see `Equilibration.PointConditionsKeys` and `Equilibration.LastRegisteredWins` |
| Equilibration.PointConditionsKeys | source/equilibration.py:78-88 | the quantities set at a point are exactly those targeted by the registered recognised names; unrecognised names set nothing |
| Equilibration.ApplyPointOverrides | source/equilibration.py:78-88 | running a point's setters on existing conditions replaces exactly the targeted quantities and keeps all other settings |
| Equilibration.LastRegisteredWins | source/equilibration.py:78-88 | when several constraints target the same quantity, the setting in effect is the value of the last registered one |
| Equilibration.OverwritesShared | source/equilibration.py:75-92 | although one conditions object is shared by all points, a point's setters overwrite every quantity any earlier point can have set, so the solve sees exactly this point's conditions |
| Equilibration.PointConditionsIndependent | source/equilibration.py:75-92 | the conditions left by one grid point do not leak into the next point's solve |
| Equilibration.SetPoint | source/equilibration.py:78-88 | the inner setter loop leaves the old conditions overridden by exactly the point's own settings; untargeted settings survive |
| Equilibration.Status | source/equilibration.py:95 | the status is "Successful computation!" exactly when the solve succeeded and "Computation has failed!" exactly when it did not |
| Equilibration.SolvePoints | source/equilibration.py:75-95 | every point is solved exactly once and in order; each solve starts from the unmodified initial state with only that point's conditions; states and statuses are index-aligned with the points and no failure skips a point |
| Equilibration.Equilibrate | source/equilibration.py:58-98 | one state, one status and one solve per grid point; the count is the product of the value counts, or zero with no constraints; solve i gets the initial state and the conditions of grid point i |
| MeshGrid.Zip | source/equilibration.py:75 | `zip` stops at the shortest flattened array: as many tuples as the shortest column, none when there are no columns |
| MeshGrid.MeshColumn | source/equilibration.py:66-70 | each flattened meshgrid array has one cell per grid point; its contents are stated by `MeshGrid.GridAt` and `MeshGrid.GridIsXyProduct` |
| MeshGrid.Grid | source/equilibration.py:62-75 | the sweep grid as built by meshgrid, flatten and zip; see `MeshGrid.GridSize`, `MeshGrid.GridIsXyProduct` and `MeshGridOrder.GridPoint` |
| MeshGrid.GridSize | source/equilibration.py:62-75 | the number of grid points is the product of every axis's value count (a scalar counts as one); with no axes it is zero |
| MeshGrid.GridIsXyProduct | source/equilibration.py:66-75 | meshgrid + flatten + zip equals the row-major product of the axes with the first two exchanged, each tuple exchanged back |
| MeshGridOrder.SlowAxes | source/equilibration.py:66-75 | with two or more axes, axis 1 has stride N0·N2·… (slowest) and axis 0 has stride N2·N3·… |
| MeshGridOrder.FastAxis | source/equilibration.py:66-75 | axis j ≥ 2 has the product of the later extents as its stride, so the last axis varies fastest |
| MeshGridOrder.SingleAxisOrder | source/equilibration.py:66-75 | a single axis is swept in the order its values are given |
| MeshGridOrder.NoAxes | source/equilibration.py:66-75 | with no constraints the grid is empty |
| MeshGridOrder.TwoAxisExample | source/equilibration.py:66-75 | A=[a1,a2], B=[b1,b2] gives (a1,b1), (a2,b1), (a1,b2), (a2,b2) |
| MeshGridOrder.GridPoint | source/equilibration.py:66-75 | grid point k takes from every axis the value at the coordinate that k decodes to |
| MeshGridOrder.EveryCombinationOnce | source/equilibration.py:66-75 | every combination of axis coordinates occurs at a grid position, and that position decodes back to the same combination |
| MeshGridOrder.PositionOfPoint | source/equilibration.py:66-75 | the position of grid point k's coordinates is k, so different positions carry different combinations |

## Left out

- Engine internals (the equilibrium solver, aqueous properties, specification and conditions semantics) are a foreign numerical library. The solver is a function parameter. The specification is the log of the declarations made on it. The conditions object is a map holding the last setting given for each quantity.
- The state a solve returns is whatever the solver function returns. The model does not describe species amounts.
- Constraint values and substance amounts have an abstract type. The residual uses exact `real` arithmetic instead of floating point.
- Unit strings are passed through without interpretation. The S setter's fixed molal unit appears only as the absence of a unit string.
- General numpy broadcasting: a multi-dimensional value array flattened into an axis, and dtype conversion of the meshgrid. A value is one element or a one-dimensional sequence.
- Engine faults raised in `__init__`, `addConstraint`, `initialize` or `equilibrate` (a malformed system, an unknown species, substance or unit) are not modelled. `Create`, `AddConstraint` and `Initialize` always succeed.
- The controller's `system` reference is not modelled. Neither are the `solver`, `conditions`, `states` and `equilibrium_status` attributes that `equilibrate` leaves on the object. `Equilibrate` returns the states and statuses instead. It also returns the solver calls it makes, so that the once-per-point property can be stated.
- Deep-copy and aliasing of chemical states: states are values, so each solve receives an unmodified copy of the initial state by construction.
