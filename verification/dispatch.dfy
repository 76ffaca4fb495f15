/**
  The two dispatch tables of the controller agree: the quantities that
  registration declares as specified inputs are exactly the quantities the
  sweep's setters assign at every grid point.
 */
module Dispatch {
  import opened Engine
  import opened Equilibration

  /** The controller after registering `cs`, in order, on a fresh controller. */
  function RegisterAll<V>(cs: seq<Constraint<V>>): ConstrainedEquilibration<V>
    decreases |cs|
  {
    if |cs| == 0 then Create()
    else
      var c := cs[|cs| - 1];
      AddConstraint(RegisterAll(cs[..|cs| - 1]), c.name, c.value, c.units).0
  }

  lemma SpecifiedConcat(calls: seq<SpecCall>, more: seq<SpecCall>)
    ensures SpecifiedQuantities(calls + more) == SpecifiedQuantities(calls) + SpecifiedQuantities(more)
  {
    var all := calls + more;
    forall key | key in SpecifiedQuantities(all)
      ensures key in SpecifiedQuantities(calls) || key in SpecifiedQuantities(more)
    {
      var i :| 0 <= i < |all| && Specified(all[i]) == Some(key);
      if i < |calls| {
        assert all[i] == calls[i];
      } else {
        assert all[i] == more[i - |calls|];
      }
    }
    forall key | key in SpecifiedQuantities(calls)
      ensures key in SpecifiedQuantities(all)
    {
      var i :| 0 <= i < |calls| && Specified(calls[i]) == Some(key);
      assert all[i] == calls[i];
    }
    forall key | key in SpecifiedQuantities(more)
      ensures key in SpecifiedQuantities(all)
    {
      var i :| 0 <= i < |more| && Specified(more[i]) == Some(key);
      assert all[|calls| + i] == more[i];
    }
  }

  /**
    Temperature, pressure, fO2 and pH each make exactly one declaration,
    and it declares the very quantity the sweep's setter for that name
    assigns.
   */
  lemma SingleDeclaration(specs: Specs, name: string)
    requires name in {"temperature", "pressure", "fO2", "pH"}
    ensures |Declare(specs, name).calls| == |specs.calls| + 1
    ensures Declare(specs, name).calls[..|specs.calls|] == specs.calls
    ensures Specified(Declare(specs, name).calls[|specs.calls|]) == ConditionKeyOf(name)
  {
  }

  /**
    The total-sulfur registration: a new input "S", an equation constraint
    "S" whose residual reads that input and is zero exactly when the
    modelled molality of S equals it, and an opening of the system to S.
   */
  lemma SulfurDeclaration(specs: Specs, molality: string -> real, w: seq<real>)
    requires |Inputs(specs.calls)| < |w|
    ensures var r := Declare(specs, Sulfur).calls;
            && |r| == |specs.calls| + 3
            && r[..|specs.calls|] == specs.calls
            && r[|specs.calls|] == AddInput(Sulfur)
            && r[|specs.calls| + 2] == OpenTo(Sulfur)
            && r[|specs.calls| + 1].AddEquation?
            && r[|specs.calls| + 1].equation.id == Sulfur
            && r[|specs.calls| + 1].equation.residual.inputIndex == |Inputs(specs.calls)|
            && Inputs(r) == Inputs(specs.calls) + [Sulfur]
            && (Residual(r[|specs.calls| + 1].equation.residual, molality, w) == 0.0
                <==> molality(Sulfur) == w[|Inputs(specs.calls)|])
  {
    var s := AddSConstraint(specs).calls;
    var r := Declare(specs, Sulfur).calls;
    assert r == s + [OpenTo(Sulfur)];
    InputsSnoc(s, OpenTo(Sulfur));
    assert s[|s| - 1] == r[|specs.calls| + 1];
    assert s[..|specs.calls|] == specs.calls;
    assert s[|specs.calls|] == AddInput(Sulfur) by {
      assert Inputs(s) == Inputs(specs.calls) + [Sulfur];
      assert s == specs.calls + s[|specs.calls|..];
      SpecifiedConcat(specs.calls, s[|specs.calls|..]);
      assert s[|specs.calls|..] == [s[|specs.calls|], s[|specs.calls| + 1]];
      InputsSnoc(specs.calls, s[|specs.calls|]);
      InputsSnoc(specs.calls + [s[|specs.calls|]], s[|specs.calls| + 1]);
      assert s == specs.calls + [s[|specs.calls|]] + [s[|specs.calls| + 1]];
    }
  }

  /** What registering one name adds to the specified quantities. */
  lemma DeclareSpecified(specs: Specs, name: string)
    ensures SpecifiedQuantities(Declare(specs, name).calls) ==
            SpecifiedQuantities(specs.calls) + (if ConditionKeyOf(name).Some? then {ConditionKeyOf(name).value} else {})
  {
    var r := Declare(specs, name).calls;
    if name in {"temperature", "pressure", "fO2", "pH"} {
      SingleDeclaration(specs, name);
      assert r == specs.calls + [r[|specs.calls|]];
      SpecifiedConcat(specs.calls, [r[|specs.calls|]]);
      assert SpecifiedQuantities([r[|specs.calls|]]) == {ConditionKeyOf(name).value};
    } else if name == Sulfur {
      SulfurDeclaration(specs, _ => 0.0, seq(|Inputs(specs.calls)| + 1, _ => 0.0));
      var more := r[|specs.calls|..];
      assert r == specs.calls + more;
      SpecifiedConcat(specs.calls, more);
      assert more == [AddInput(Sulfur), r[|specs.calls| + 1], OpenTo(Sulfur)];
      assert SpecifiedQuantities(more) == {Input(Sulfur)};
    }
  }

  /**
    Registering a constraint list declares exactly the quantities the
    list's setters assign, and records the list itself.
   */
  lemma {:induction false} RegisteredSpecified<V>(cs: seq<Constraint<V>>)
    ensures RegisterAll(cs).constraints == cs
    ensures SpecifiedQuantities(RegisterAll(cs).specs.calls) == TargetedKeys(cs)
    decreases |cs|
  {
    if |cs| > 0 {
      var n := |cs| - 1;
      RegisteredSpecified(cs[..n]);
      DeclareSpecified(RegisterAll(cs[..n]).specs, cs[n].name);
      TargetedKeysSnoc(cs[..n], cs[n]);
      assert cs == cs[..n] + [cs[n]];
    } else {
      assert SpecifiedQuantities([]) == {};
    }
  }

  /**
    At every grid point the sweep supplies exactly the quantities that
    registration declared as specified: none is left unset and no setter
    targets an undeclared quantity.
   */
  lemma PointSuppliesSpecified<V>(cs: seq<Constraint<V>>, point: seq<V>)
    requires |point| == |cs|
    ensures PointConditions(cs, point).Keys == SpecifiedQuantities(RegisterAll(cs).specs.calls)
  {
    RegisteredSpecified(cs);
    PointConditionsKeys(cs, point);
  }
}
