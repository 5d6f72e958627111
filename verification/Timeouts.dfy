/** Gateway API durations (GEP-2257) and the request budgets built from them. */
module Timeouts {
  import opened Options
  import opened Text

  const U64: nat := 0x1_0000_0000_0000_0000

  datatype Unit = Milliseconds | Hours | Minutes | Seconds

  /** One to five digits and a unit. */
  datatype Component = Component(digits: string, unit: Unit)

  function Suffix(unit: Unit): string {
    match unit
    case Milliseconds => "ms"
    case Hours => "h"
    case Minutes => "m"
    case Seconds => "s"
  }

  predicate WellFormed(cs: seq<Component>) {
    forall i | 0 <= i < |cs| :: 1 <= |cs[i].digits| <= 5 && AllDigits(cs[i].digits)
  }

  function Print(cs: seq<Component>): string {
    if cs == [] then "" else cs[0].digits + Suffix(cs[0].unit) + Print(cs[1..])
  }

  function Scaled(value: nat, unit: Unit): nat {
    match unit
    case Milliseconds => value
    case Hours => value * 3600000
    case Minutes => value * 60000
    case Seconds => value * 1000
  }

  function Millis(cs: seq<Component>): nat
    requires WellFormed(cs)
  {
    if cs == [] then 0 else Millis(cs[..|cs| - 1]) + Scaled(Value(cs[|cs| - 1].digits), cs[|cs| - 1].unit)
  }

  /** The first matching unit, `ms` before `m`. */
  function FindUnit(text: string): (unit: Option<Unit>)
    ensures unit.Some? ==> StartsWith(text, Suffix(unit.value))
  {
    if StartsWith(text, "ms") then Some(Milliseconds)
    else if StartsWith(text, "h") then Some(Hours)
    else if StartsWith(text, "m") then Some(Minutes)
    else if StartsWith(text, "s") then Some(Seconds)
    else None
  }

  /** The component a text begins with, and what follows it. */
  function First(text: string): (r: Option<(Component, string)>)
    ensures r.Some? ==> |r.value.1| < |text| && WellFormed([r.value.0])
    ensures r.Some? ==> text == r.value.0.digits + Suffix(r.value.0.unit) + r.value.1
  {
    var n := Leading(text);
    if !(1 <= n <= 5) then None
    else
      var unit := FindUnit(text[n..]);
      if unit.None? then None
      else
        assert text[n..][|Suffix(unit.value)|..] == text[n + |Suffix(unit.value)|..];
        Some((Component(text[..n], unit.value), text[n + |Suffix(unit.value)|..]))
  }

  /** The components of a text, if it consists of components only. */
  function Components(text: string): (r: Option<seq<Component>>)
    ensures r.Some? && text != "" ==> r.value != []
    decreases |text|
  {
    if text == "" then Some([])
    else
      var first := First(text);
      if first.None? then None
      else
        var rest := Components(first.value.1);
        if rest.None? then None else Some([first.value.0] + rest.value)
  }

  lemma {:induction false} ComponentsPrintBack(text: string)
    requires Components(text).Some?
    ensures WellFormed(Components(text).value) && Print(Components(text).value) == text
    decreases |text|
  {
    if text != "" {
      ComponentsPrintBack(First(text).value.1);
    }
  }

  lemma UnitRead(unit: Unit, tail: string)
    requires tail != "" ==> IsDigit(tail[0])
    ensures FindUnit(Suffix(unit) + tail) == Some(unit)
  {
    var text := Suffix(unit) + tail;
    assert text[..1] == [Suffix(unit)[0]];
    if |text| >= 2 {
      assert text[..2] == [text[0], text[1]];
    }
  }

  lemma FirstReadsBack(c: Component, tail: string)
    requires WellFormed([c])
    requires tail != "" ==> IsDigit(tail[0])
    ensures First(c.digits + Suffix(c.unit) + tail) == Some((c, tail))
  {
    assert c == [c][0];
    var text := c.digits + Suffix(c.unit) + tail;
    Parts(c.digits, Suffix(c.unit), tail);
    assert text[|c.digits|] == (Suffix(c.unit) + tail)[0] == Suffix(c.unit)[0];
    LeadingUnique(text, |c.digits|);
    UnitRead(c.unit, tail);
  }

  lemma PrintStartsWithDigit(cs: seq<Component>)
    requires WellFormed(cs) && cs != []
    ensures Print(cs) != "" && IsDigit(Print(cs)[0])
  {
    assert Print(cs)[0] == cs[0].digits[0];
  }

  /** Reading undoes printing: trying `ms` before `m` never misreads a component list. */
  lemma {:induction false} ComponentsUndoPrint(cs: seq<Component>)
    requires WellFormed(cs)
    ensures Components(Print(cs)) == Some(cs)
  {
    if cs != [] {
      assert WellFormed([cs[0]]);
      if cs[1..] != [] {
        PrintStartsWithDigit(cs[1..]);
      }
      FirstReadsBack(cs[0], Print(cs[1..]));
      ComponentsUndoPrint(cs[1..]);
      assert [cs[0]] + cs[1..] == cs;
    }
  }

  lemma ScaledBound(digits: string, unit: Unit)
    requires 1 <= |digits| <= 5 && AllDigits(digits)
    ensures Scaled(Value(digits), unit) <= 99999 * 3600000
  {
    ValueBound(digits);
    assert Power10(1) == 10 && Power10(2) == 100 && Power10(3) == 1000;
    assert Power10(4) == 10 * Power10(3);
    assert Power10(5) == 10 * Power10(4);
  }

  /** At most four components stay far below 2^64 milliseconds. */
  lemma {:induction false} MillisBound(cs: seq<Component>)
    requires WellFormed(cs)
    ensures Millis(cs) <= |cs| * (99999 * 3600000)
    decreases |cs|
  {
    if cs != [] {
      ScaledBound(cs[|cs| - 1].digits, cs[|cs| - 1].unit);
      MillisBound(cs[..|cs| - 1]);
    }
  }

  /** Milliseconds add up over the components, whatever their order. */
  lemma {:induction false} MillisConcat(a: seq<Component>, b: seq<Component>)
    requires WellFormed(a) && WellFormed(b)
    ensures WellFormed(a + b) && Millis(a + b) == Millis(a) + Millis(b)
    decreases |b|
  {
    if b == [] {
      assert a + b == a;
    } else {
      assert (a + b)[..|a + b| - 1] == a + b[..|b| - 1];
      MillisConcat(a, b[..|b| - 1]);
    }
  }

  /** A single component is read with the length of its unit. */
  lemma UnitLengths(digits: string)
    requires 1 <= |digits| <= 5 && AllDigits(digits)
    ensures Read(Some(digits + "ms")) == Some(Value(digits))
    ensures Read(Some(digits + "s")) == Some(1000 * Value(digits))
    ensures Read(Some(digits + "m")) == Some(60 * 1000 * Value(digits))
    ensures Read(Some(digits + "h")) == Some(60 * 60 * 1000 * Value(digits))
  {
    hide Value, Read;
    OneComponent(Component(digits, Milliseconds));
    OneComponent(Component(digits, Seconds));
    OneComponent(Component(digits, Minutes));
    OneComponent(Component(digits, Hours));
  }

  lemma OneComponent(c: Component)
    requires 1 <= |c.digits| <= 5 && AllDigits(c.digits)
    ensures Read(Some(c.digits + Suffix(c.unit))) == Some(Scaled(Value(c.digits), c.unit))
  {
    assert WellFormed([c]);
    ComponentsUndoPrint([c]);
    assert Print([c]) == c.digits + Suffix(c.unit) by {
      assert Print([c][1..]) == "";
    }
    hide Components;
    MillisEmpty();
    MillisSnoc([], c);
    assert [] + [c] == [c];
  }

  /** `duration`: exactly one to four components are accepted, and their sum returned. */
  method Duration(text: string) returns (result: Result<nat>)
    ensures result.Ok? <==> Components(text).Some? && 1 <= |Components(text).value| <= 4
    ensures result.Ok? ==>
              && WellFormed(Components(text).value)
              && result.value == Millis(Components(text).value) < U64
  {
    hide Components, First, Leading, FindUnit, Value, Scaled, Millis, StartsWith, WellFormed;
    MillisEmpty();
    var rest, millis, components := text, 0, 0;
    ghost var done: seq<Component> := [];
    ComponentsUnfold(text);
    while rest != ""
      invariant components == |done| <= 4 && WellFormed(done) && millis == Millis(done)
      invariant Components(text) == Prepend(done, Components(rest))
      decreases |rest|
    {
      ComponentsUnfold(rest);
      FirstUnfold(rest);
      var digits := Leading(rest);
      if !(1 <= digits <= 5 && components < 4) {
        return Err("invalid Gateway duration");
      }
      var value := Value(rest[..digits]);
      var unit := FindUnit(rest[digits..]);
      if unit.None? {
        return Err("Gateway duration requires h, m, s or ms");
      }
      ghost var c := Component(rest[..digits], unit.value);
      rest := rest[digits + |Suffix(unit.value)|..];
      PrependSnoc(done, c, Components(rest));
      MillisSnoc(done, c);
      millis := millis + Scaled(value, unit.value);
      done := done + [c];
      components := components + 1;
    }
    ComponentsUnfold(rest);
    assert done + [] == done;
    assert Components(text) == Some(done);
    if components == 0 {
      return Err("empty Gateway duration");
    }
    MillisBound(done);
    return Ok(millis);
  }

  lemma MillisEmpty()
    ensures WellFormed([]) && Millis([]) == 0
  {
  }

  lemma MillisSnoc(cs: seq<Component>, c: Component)
    requires WellFormed(cs) && 1 <= |c.digits| <= 5 && AllDigits(c.digits)
    ensures WellFormed(cs + [c]) && Millis(cs + [c]) == Millis(cs) + Scaled(Value(c.digits), c.unit)
  {
    assert (cs + [c])[..|cs|] == cs;
  }

  ghost function Prepend(done: seq<Component>, more: Option<seq<Component>>): Option<seq<Component>> {
    if more.Some? then Some(done + more.value) else None
  }

  lemma PrependSnoc(done: seq<Component>, c: Component, more: Option<seq<Component>>)
    ensures Prepend(done + [c], more) == Prepend(done, Prepend([c], more))
  {
    if more.Some? {
      assert done + ([c] + more.value) == (done + [c]) + more.value;
    }
  }

  lemma ComponentsUnfold(text: string)
    ensures text == "" ==> Components(text) == Some([])
    ensures text != "" && First(text).None? ==> Components(text) == None
    ensures text != "" && First(text).Some? ==>
              && Components(text) == Prepend([First(text).value.0], Components(First(text).value.1))
              && (Components(text).Some? ==> |Components(text).value| >= 1)
    ensures Components(text) == Prepend([], Components(text))
  {
    if Components(text).Some? {
      assert [] + Components(text).value == Components(text).value;
    }
  }

  lemma FirstUnfold(text: string)
    ensures var n := Leading(text);
            if 1 <= n <= 5 && FindUnit(text[n..]).Some? then
              var unit := FindUnit(text[n..]).value;
              n + |Suffix(unit)| <= |text|
              && First(text) == Some((Component(text[..n], unit), text[n + |Suffix(unit)|..]))
            else First(text) == None
  {
  }

  /** The grammar, stated by printing: one to four components, each one to five digits then a unit. */
  ghost predicate InGrammar(text: string, cs: seq<Component>) {
    WellFormed(cs) && 1 <= |cs| <= 4 && text == Print(cs)
  }

  /** The accepted texts are exactly those of the grammar, and each has only one reading. */
  lemma AcceptedIffInGrammar(text: string)
    ensures Components(text).Some? && 1 <= |Components(text).value| <= 4 <==> exists cs :: InGrammar(text, cs)
    ensures forall cs | InGrammar(text, cs) :: Components(text) == Some(cs)
  {
    if Components(text).Some? && 1 <= |Components(text).value| <= 4 {
      ComponentsPrintBack(text);
      assert InGrammar(text, Components(text).value);
    }
    forall cs | InGrammar(text, cs) ensures Components(text) == Some(cs) {
      ComponentsUndoPrint(cs);
    }
  }

  datatype Budgets = Budgets(request: Option<nat>, backend: Option<nat>)

  function Enabled(v: Option<nat>): Option<nat> {
    if v == Some(0) then None else v
  }

  /** `budgets` on durations already read; zero disables a limit. */
  function Admit(request: Option<nat>, backend: Option<nat>): Result<Budgets> {
    if request.Some? && backend.Some? && request.value != 0 && (backend.value == 0 || backend.value > request.value)
    then Err("backendRequest timeout must not exceed request timeout")
    else Ok(Budgets(Enabled(request), Enabled(backend)))
  }

  /** A pair is refused exactly when a limited request asks for a backend limit that is disabled
      or longer; accepted enabled budgets always have backend at most request. */
  lemma AcceptedBudgetsOrdered(request: Option<nat>, backend: Option<nat>)
    ensures Admit(request, backend).Ok? <==>
            (Enabled(request).Some? && backend.Some? ==>
               Enabled(backend).Some? && Enabled(backend).value <= Enabled(request).value)
    ensures Admit(request, backend).Ok? ==>
              var b := Admit(request, backend).value;
              && b.request == (if request == Some(0) then None else request)
              && b.backend == (if backend == Some(0) then None else backend)
              && b.request != Some(0) && b.backend != Some(0)
              && (b.request.Some? && b.backend.Some? ==> b.backend.value <= b.request.value)
  {
  }

  method ReadBudgets(request: Option<string>, backend: Option<string>) returns (result: Result<Budgets>)
    ensures result.Ok? <==>
            && (request.Some? ==> exists cs :: InGrammar(request.value, cs))
            && (backend.Some? ==> exists cs :: InGrammar(backend.value, cs))
            && Admit(Read(request), Read(backend)).Ok?
    ensures result.Ok? ==> result == Admit(Read(request), Read(backend))
  {
    var r: Option<nat>, b: Option<nat> := None, None;
    if request.Some? {
      AcceptedIffInGrammar(request.value);
      var d := Duration(request.value);
      if d.Err? {
        return Err(d.error);
      }
      r := Some(d.value);
    }
    if backend.Some? {
      AcceptedIffInGrammar(backend.value);
      var d := Duration(backend.value);
      if d.Err? {
        return Err(d.error);
      }
      b := Some(d.value);
    }
    result := Admit(r, b);
  }

  /** The milliseconds of a readable duration. */
  function Read(text: Option<string>): Option<nat> {
    if text.Some? && Components(text.value).Some? then
      ComponentsPrintBack(text.value);
      Some(Millis(Components(text.value).value))
    else None
  }
}
