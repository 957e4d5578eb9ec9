/** The dispatcher of wrapper.js: `calc` takes the four quantities, exactly
    one of which must be left `undefined`, checks them with `chkValues`, and
    routes to the calculation that derives the missing one. */
module Wrapper {
  import opened Numbers
  import opened ChangeMath

  /** The four named inputs of `calc`. */
  datatype Slot = StartNumber | EndNumber | Period | PercentChange

  /** One input as a caller passes it: `undefined`, a number, or some other
      value that JavaScript's `isNaN` coerces to NaN (a string, say). */
  datatype Field = Undefined | Value(x: Number) | NonNumeric

  /** `isNaN(val)` for a defined input. Infinity is a number here. */
  predicate IsNaN(f: Field)
  {
    f.NonNumeric? || (f.Value? && f.x.NaN?)
  }

  /** A defined input that passes the `isNaN` check: exactly the inputs
      holding a number other than NaN. */
  predicate Known(f: Field)
    ensures Known(f) <==> f.Value? && !f.x.NaN?
  {
    !f.Undefined? && !IsNaN(f)
  }

  /** The object `{ startNumber, endNumber, period, percentChange }`. */
  datatype Values = Values(startNumber: Field, endNumber: Field, period: Field, percentChange: Field)

  function Get(v: Values, s: Slot): Field
  {
    match s
    case StartNumber => v.startNumber
    case EndNumber => v.endNumber
    case Period => v.period
    case PercentChange => v.percentChange
  }

  /** The same inputs with the one in slot s replaced by f. */
  function Put(v: Values, s: Slot, f: Field): (w: Values)
    ensures Get(w, s) == f
    ensures forall t :: t != s ==> Get(w, t) == Get(v, t)
  {
    match s
    case StartNumber => v.(startNumber := f)
    case EndNumber => v.(endNumber := f)
    case Period => v.(period := f)
    case PercentChange => v.(percentChange := f)
  }

  /** The order in which `for...in` visits the properties of the object. */
  const Order: seq<Slot> := [StartNumber, EndNumber, Period, PercentChange]

  /** The two kinds of error in `ERRS`. */
  datatype Error = IsUndefinedOrANumber | ExactlyOneUndefined

  function Message(e: Error): string
  {
    match e
    case IsUndefinedOrANumber => "Each value must be undefined or a number"
    case ExactlyOneUndefined => "Exactly one of the four values must be undefined"
  }

  /** A value, or the error `calc` throws instead. */
  datatype Outcome<T> = Ok(value: T) | Err(error: Error)

  /** The names of the undefined inputs among the first k visited, in
      visiting order: the array `undefinedVals` after k steps. */
  function UndefinedAmong(v: Values, k: nat): (names: seq<Slot>)
    requires k <= |Order|
    ensures |names| <= k
    ensures forall i :: 0 <= i < |names| ==> Get(v, names[i]).Undefined?
  {
    if k == 0 then []
    else UndefinedAmong(v, k - 1) + (if Get(v, Order[k - 1]).Undefined? then [Order[k - 1]] else [])
  }

  function IfUndefined(v: Values, s: Slot): seq<Slot>
  {
    if Get(v, s).Undefined? then [s] else []
  }

  /** The whole pass, written out slot by slot. */
  lemma UndefinedAmongAll(v: Values)
    ensures UndefinedAmong(v, |Order|) ==
      IfUndefined(v, StartNumber) + IfUndefined(v, EndNumber) + IfUndefined(v, Period) + IfUndefined(v, PercentChange)
  {
    assert UndefinedAmong(v, 1) == IfUndefined(v, StartNumber);
    assert UndefinedAmong(v, 2) == IfUndefined(v, StartNumber) + IfUndefined(v, EndNumber);
    assert UndefinedAmong(v, 3) == IfUndefined(v, StartNumber) + IfUndefined(v, EndNumber) + IfUndefined(v, Period);
  }

  /** What `chkValues` decides, without its loop: any input that is not a
      number is an error, whatever else holds; otherwise exactly one input
      must be undefined, and its name is the answer. */
  function Validate(v: Values): (r: Outcome<Slot>)
    ensures r.Ok? ==> Get(v, r.value).Undefined? && forall t :: t != r.value ==> Known(Get(v, t))
  {
    if exists s :: s in Order && IsNaN(Get(v, s)) then Err(IsUndefinedOrANumber)
    else
      UndefinedAmongAll(v);
      var names := UndefinedAmong(v, |Order|);
      if |names| == 1 then Ok(names[0]) else Err(ExactlyOneUndefined)
  }

  /** `chkValues`: one pass over the inputs in order, collecting the names of
      the undefined ones and throwing as soon as an input is not a number;
      after the pass, exactly one name must have been collected. */
  method ChkValues(obj: Values) returns (r: Outcome<Slot>)
    ensures r == Validate(obj)
  {
    var undefinedVals: seq<Slot> := [];
    var i := 0;
    while i < |Order|
      invariant 0 <= i <= |Order|
      invariant undefinedVals == UndefinedAmong(obj, i)
      invariant forall j :: 0 <= j < i ==> !IsNaN(Get(obj, Order[j]))
    {
      var prop := Order[i];
      var val := Get(obj, prop);
      if val.Undefined? {
        undefinedVals := undefinedVals + [prop];
      } else if IsNaN(val) {
        return Err(IsUndefinedOrANumber);
      }
      i := i + 1;
    }
    if |undefinedVals| == 1 {
      r := Ok(undefinedVals[0]);
    } else {
      r := Err(ExactlyOneUndefined);
    }
  }

  /** The `switch` of `calc`: the calculation for the missing input, given
      the other three in the order that calculation takes them. */
  function Dispatch(m: Math, slot: Slot, v: Values): Number
    requires forall t :: t != slot ==> Known(Get(v, t))
  {
    assert Known(Get(v, StartNumber)) || slot == StartNumber;
    assert Known(Get(v, EndNumber)) || slot == EndNumber;
    assert Known(Get(v, Period)) || slot == Period;
    assert Known(Get(v, PercentChange)) || slot == PercentChange;
    match slot
    case StartNumber => Start(m, Get(v, EndNumber).x, Get(v, Period).x, Get(v, PercentChange).x)
    case EndNumber => End(m, Get(v, StartNumber).x, Get(v, Period).x, Get(v, PercentChange).x)
    case Period => Periods(m, Get(v, StartNumber).x, Get(v, EndNumber).x, Get(v, PercentChange).x)
    case PercentChange => PercentChangeByPeriod(m, Get(v, StartNumber).x, Get(v, EndNumber).x, Get(v, Period).x)
  }

  /** What `calc` returns or throws. */
  function Resolve(m: Math, v: Values): (r: Outcome<Number>)
    ensures r.Err? <==> Validate(v).Err?
    ensures r.Err? ==> r.error == Validate(v).error
  {
    match Validate(v)
    case Err(e) => Err(e)
    case Ok(slot) => Ok(Dispatch(m, slot, v))
  }

  /** `calc`: check the inputs, then derive the missing one. A failed check
      is the error `calc` throws; otherwise the calculation's result is
      returned as it is, Infinity and NaN included. */
  method Calc(m: Math, startNumber: Field, endNumber: Field, period: Field, percentChange: Field)
    returns (r: Outcome<Number>)
    ensures r == Resolve(m, Values(startNumber, endNumber, period, percentChange))
  {
    var values := Values(startNumber, endNumber, period, percentChange);
    var undefinedVal := ChkValues(values);
    match undefinedVal
    case Err(e) =>
      r := Err(e);
    case Ok(slot) =>
      r := Ok(Dispatch(m, slot, values));
  }

  // ---------------------------------------------------------------------
  // What the check accepts and rejects

  lemma EverySlotVisited(s: Slot)
    ensures s in Order
  {
  }

  /** The check names a slot exactly when that input alone is undefined and
      every other input is a number. */
  lemma ValidateOk(v: Values, s: Slot)
    ensures Validate(v) == Ok(s) <==>
      Get(v, s).Undefined? && forall t :: t != s ==> Known(Get(v, t))
  {
    if Get(v, s).Undefined? && forall t :: t != s ==> Known(Get(v, t)) {
      UndefinedAmongAll(v);
    }
  }

  /** An input that is not a number is rejected with IsUndefinedOrANumber,
      however many inputs are undefined; nothing else is. */
  lemma ValidateNotANumber(v: Values)
    ensures Validate(v) == Err(IsUndefinedOrANumber) <==> exists s :: IsNaN(Get(v, s))
  {
    if s :| IsNaN(Get(v, s)) {
      EverySlotVisited(s);
    }
  }

  /** With every defined input a number, no undefined input, or two or more,
      is rejected with ExactlyOneUndefined. */
  lemma ValidateCount(v: Values)
    requires forall s :: !IsNaN(Get(v, s))
    ensures (forall s :: Known(Get(v, s))) ==> Validate(v) == Err(ExactlyOneUndefined)
    ensures (exists s, t :: s != t && Get(v, s).Undefined? && Get(v, t).Undefined?) ==>
      Validate(v) == Err(ExactlyOneUndefined)
  {
    ValidateNotANumber(v);
    if Validate(v).Ok? {
      var s := Validate(v).value;
      ValidateOk(v, s);
    }
  }

  /** A zero is a value, not a missing input: its slot is never the one
      named, and it never causes IsUndefinedOrANumber. */
  lemma ZeroIsKnown(v: Values, s: Slot)
    requires Get(v, s) == Value(Finite(0.0))
    ensures Validate(v) != Ok(s)
    ensures Validate(v) == Err(IsUndefinedOrANumber) ==> exists t :: t != s && IsNaN(Get(v, t))
  {
    ValidateOk(v, s);
    ValidateNotANumber(v);
  }

  lemma MessagesDistinct(a: Error, b: Error)
    ensures Message(a) == Message(b) <==> a == b
  {
    if a != b {
      assert |Message(a)| != |Message(b)|;
    }
  }

  // ---------------------------------------------------------------------
  // What calc computes

  /** The dispatch table: which calculation gets which inputs, in which
      order; a failed check passes its error through. */
  lemma ResolveTable(m: Math, v: Values)
    ensures Validate(v).Err? ==> Resolve(m, v) == Err(Validate(v).error)
    ensures Validate(v) == Ok(StartNumber) ==>
      Resolve(m, v) == Ok(Start(m, Get(v, EndNumber).x, Get(v, Period).x, Get(v, PercentChange).x))
    ensures Validate(v) == Ok(EndNumber) ==>
      Resolve(m, v) == Ok(End(m, Get(v, StartNumber).x, Get(v, Period).x, Get(v, PercentChange).x))
    ensures Validate(v) == Ok(Period) ==>
      Resolve(m, v) == Ok(Periods(m, Get(v, StartNumber).x, Get(v, EndNumber).x, Get(v, PercentChange).x))
    ensures Validate(v) == Ok(PercentChange) ==>
      Resolve(m, v) == Ok(PercentChangeByPeriod(m, Get(v, StartNumber).x, Get(v, EndNumber).x, Get(v, Period).x))
  {
  }

  /** The calculation never reads the input it derives. */
  lemma DispatchIgnoresMissing(m: Math, slot: Slot, v: Values, f: Field)
    requires forall t :: t != slot ==> Known(Get(v, t))
    ensures forall t :: t != slot ==> Known(Get(Put(v, slot, f), t))
    ensures Dispatch(m, slot, Put(v, slot, f)) == Dispatch(m, slot, v)
  {
    var w := Put(v, slot, f);
    assert forall t :: t != slot ==> Get(w, t) == Get(v, t);
  }

  function Num(r: real): Field
  {
    Value(Finite(r))
  }

  /** Resolve once the check has named a slot. */
  lemma ResolveNamed(m: Math, v: Values, slot: Slot)
    requires Get(v, slot).Undefined? && forall t :: t != slot ==> Known(Get(v, t))
    ensures Resolve(m, v) == Ok(Dispatch(m, slot, v))
  {
    ValidateOk(v, slot);
  }

  lemma CalcExampleEnd(m: Math)
    requires NatPowers(m)
    ensures Resolve(m, Values(Num(1.0), Undefined, Num(3.0), Num(100.0))) == Ok(Finite(8.0))
  {
    ResolveNamed(m, Values(Num(1.0), Undefined, Num(3.0), Num(100.0)), EndNumber);
    EndExampleDoubling(m);
  }

  lemma CalcExampleStart(m: Math)
    requires NatPowers(m)
    ensures Resolve(m, Values(Undefined, Num(8.0), Num(3.0), Num(100.0))) == Ok(Finite(1.0))
  {
    ResolveNamed(m, Values(Undefined, Num(8.0), Num(3.0), Num(100.0)), StartNumber);
    StartExamples(m);
  }

  /** calc derives a start of 0.5 from an end of 2 after one period at 0%,
      although a start of 2 is what reaches that end. */
  lemma CalcExampleStartNotInverse(m: Math)
    requires NatPowers(m)
    ensures Resolve(m, Values(Undefined, Num(2.0), Num(1.0), Num(0.0))) == Ok(Finite(0.5))
  {
    ResolveNamed(m, Values(Undefined, Num(2.0), Num(1.0), Num(0.0)), StartNumber);
    StartIsNotInverse(m);
  }

  lemma CalcExamplePeriods(m: Math)
    requires NatPowers(m) && LogLaws(m)
    ensures Resolve(m, Values(Num(1.0), Num(8.0), Undefined, Num(100.0))) == Ok(Finite(3.0))
  {
    ResolveNamed(m, Values(Num(1.0), Num(8.0), Undefined, Num(100.0)), Period);
    PeriodsExampleDoubling(m);
  }

  lemma CalcExamplePercentChange(m: Math)
    requires Roots(m)
    ensures Resolve(m, Values(Num(1.0), Num(8.0), Num(3.0), Undefined)) == Ok(Finite(100.0))
  {
    ResolveNamed(m, Values(Num(1.0), Num(8.0), Num(3.0), Undefined), PercentChange);
    PercentChangeExamplesOfPowers(m);
  }

  /** A zero start number is a value, and the rate it leads to is infinite. */
  lemma CalcExampleZeroStart(m: Math)
    requires IeeePow(m)
    ensures Resolve(m, Values(Num(0.0), Num(8.0), Num(3.0), Undefined)) == Ok(Infinity(false))
  {
    ResolveNamed(m, Values(Num(0.0), Num(8.0), Num(3.0), Undefined), PercentChange);
    PercentChangeZeroStart(m, 8.0, 3.0);
  }

  lemma CalcExampleErrors(m: Math)
    ensures Resolve(m, Values(Num(1.0), Num(8.0), Num(3.0), Num(100.0))) == Err(ExactlyOneUndefined)
    ensures Resolve(m, Values(Num(1.0), Num(8.0), Undefined, Undefined)) == Err(ExactlyOneUndefined)
    ensures Resolve(m, Values(Num(1.0), Num(8.0), Undefined, NonNumeric)) == Err(IsUndefinedOrANumber)
  {
    ValidateCount(Values(Num(1.0), Num(8.0), Num(3.0), Num(100.0)));
    ValidateCount(Values(Num(1.0), Num(8.0), Undefined, Undefined));
    ValidateNotANumber(Values(Num(1.0), Num(8.0), Undefined, NonNumeric));
  }
}
