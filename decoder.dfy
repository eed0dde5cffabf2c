/**
 * `mapToBean`: construct a bean, then for every map entry invoke the first
 * writer whose name is derived from the key and whose parameter text equals
 * the type text of the value.
 */
module Decoder {
  import opened Wrappers
  import opened Reflection
  import opened Naming

  /** One writer invocation: the table index of the writer and its argument. */
  datatype Call = Call(setter: nat, arg: Value)

  /**
   * A bean under construction, observed through the writer invocations it
   * receives; what a writer's body does with its argument is the bean's
   * own business.
   */
  class Bean {
    var calls: seq<Call>

    /** `klass.getConstructor().newInstance()` when it succeeds. */
    constructor ()
      ensures calls == []
    {
      calls := [];
    }

    /** `method.invoke(bean, value)` of a writer that returns normally. */
    method Invoke(setter: nat, arg: Value)
      modifies this
      ensures calls == old(calls) + [Call(setter, arg)]
    {
      calls := calls + [Call(setter, arg)];
    }
  }

  /** `Method.toString()` always holds a parameter list between parentheses. */
  predicate Decodable(table: seq<MethodInfo>) {
    forall i :: 0 <= i < |table| ==> HasParamText(table[i].descriptor)
  }

  /**
   * Every descriptor lists the method's own parameter types, so
   * `getMethodParam` reads back exactly the comma-joined parameter list.
   */
  predicate ListsParams(table: seq<MethodInfo>) {
    forall i :: 0 <= i < |table| ==>
      HasParamText(table[i].descriptor) && GetMethodParam(table[i].descriptor) == JoinParams(table[i].params)
  }

  /**
   * An entry reaches the writer lookup when neither `value.getClass()`
   * (a null value), nor the type text (the last `s` is the final
   * character), nor `key.substring(0, 1)` (an empty key) throws.
   */
  predicate ReachesLookup(e: Entry)
    ensures ReachesLookup(e) <==>
      e.value != Null && |e.key| > 0 && LastIndexOf(ClassText(e.value), 's') + 2 <= |ClassText(e.value)|
  {
    e.value != Null && TypeTextAsWritten(ClassText(e.value)).Some? && |e.key| > 0
  }

  /** A method matches a writer name and a type text. */
  predicate Matches(m: MethodInfo, name: string, typeText: string)
    requires HasParamText(m.descriptor)
    ensures Matches(m, name, typeText) ==> m.name == name && ')' !in typeText
  {
    m.name == name && GetMethodParam(m.descriptor) == typeText
  }

  /** `invoke(bean, value)` accepts the argument: the method takes one parameter, of the value's own class. */
  predicate TakesValue(m: MethodInfo, v: Value)
    requires v != Null
    ensures TakesValue(m, v) <==> |m.params| == 1 && JoinParams(m.params) == QualifiedName(v)
  {
    m.params == [QualifiedName(v)]
  }

  /** The writer the inner loop picks: the first matching method in table order. */
  function SelectSetter(table: seq<MethodInfo>, name: string, typeText: string): (r: Option<nat>)
    requires Decodable(table)
    ensures r.Some? ==> r.value < |table| && Matches(table[r.value], name, typeText)
    ensures r.Some? ==> forall j :: 0 <= j < r.value ==> !Matches(table[j], name, typeText)
    ensures r.None? <==> forall j :: 0 <= j < |table| ==> !Matches(table[j], name, typeText)
  {
    if table == [] then None
    else if Matches(table[0], name, typeText) then Some(0)
    else match SelectSetter(table[1..], name, typeText)
      case None => None
      case Some(j) => Some(j + 1)
  }

  /** The writer an entry selects, through the type text as the source computes it. */
  function Selected(table: seq<MethodInfo>, e: Entry): (r: Option<nat>)
    requires Decodable(table) && ReachesLookup(e)
    ensures r.Some? ==>
      && r.value < |table| && table[r.value].name == SetterName(e.key)
      && GetMethodParam(table[r.value].descriptor) == TypeTextAsWritten(ClassText(e.value)).value
    ensures r.None? <==> forall j :: 0 <= j < |table| ==>
      !Matches(table[j], SetterName(e.key), TypeTextAsWritten(ClassText(e.value)).value)
  {
    SelectSetter(table, SetterName(e.key), TypeTextAsWritten(ClassText(e.value)).value)
  }

  /**
   * What the outer loop does for one entry: invoke a writer, find none,
   * stop on a checked exception the `catch` takes (`Fail`), or stop on an
   * unchecked exception that leaves `mapToBean` (`Crash`).
   */
  datatype Step = Invoke(call: Call) | NoSetter | Fail | Crash

  predicate Stops(s: Step) {
    s.Fail? || s.Crash?
  }

  /**
   * One iteration of the outer loop. An entry that does not reach the
   * lookup crashes; so does invoking the selected writer when it does not
   * take exactly one parameter of the value's class (IllegalArgumentException).
   * Otherwise the selected writer is invoked, or ends the loop when it
   * throws, and nothing happens when no writer is selected.
   */
  function StepOf(table: seq<MethodInfo>, e: Entry): (r: Step)
    requires Decodable(table)
    ensures !ReachesLookup(e) ==> r == Crash
    ensures ReachesLookup(e) ==> (r.NoSetter? <==> Selected(table, e).None?)
    ensures ReachesLookup(e) && Selected(table, e).Some? ==>
      var m := table[Selected(table, e).value];
      && (r.Crash? <==> !TakesValue(m, e.value))
      && (r.Fail? <==> TakesValue(m, e.value) && m.outcome.Throws?)
      && (r.Invoke? <==> TakesValue(m, e.value) && m.outcome.Returns?)
    ensures r.Invoke? ==>
      && ReachesLookup(e) && Selected(table, e) == Some(r.call.setter) && r.call.arg == e.value
      && r.call.setter < |table| && TakesValue(table[r.call.setter], e.value)
  {
    if !ReachesLookup(e) then Crash
    else match Selected(table, e)
      case None => NoSetter
      case Some(i) =>
        if !TakesValue(table[i], e.value) then Crash
        else if table[i].outcome.Throws? then Fail
        else Invoke(Call(i, e.value))
  }

  function Steps(table: seq<MethodInfo>, entries: seq<Entry>): (ss: seq<Step>)
    requires Decodable(table)
    ensures |ss| == |entries|
    ensures forall k :: 0 <= k < |entries| ==> ss[k] == StepOf(table, entries[k])
  {
    if entries == [] then []
    else [StepOf(table, entries[0])] + Steps(table, entries[1..])
  }

  /** The writer invocations a run of steps performs, up to the first step that stops it. */
  function Run(ss: seq<Step>): (calls: seq<Call>)
    ensures |calls| <= |ss|
  {
    if ss == [] then []
    else match ss[0]
      case Invoke(c) => [c] + Run(ss[1..])
      case NoSetter => Run(ss[1..])
      case Fail => []
      case Crash => []
  }

  /** The first step that stops the run is a crash: the exception leaves `mapToBean`. */
  predicate Raises(ss: seq<Step>) {
    ss != [] && match ss[0]
      case Crash => true
      case Fail => false
      case _ => Raises(ss[1..])
  }

  predicate NoStop(ss: seq<Step>) {
    forall k :: 0 <= k < |ss| ==> !Stops(ss[k])
  }

  /** The writer invocations `mapToBean` performs for the entries in iteration order. */
  function Decode(table: seq<MethodInfo>, entries: seq<Entry>): (calls: seq<Call>)
    requires Decodable(table)
    ensures |calls| <= |entries|
    ensures forall c :: c in calls ==> exists k :: 0 <= k < |entries| && StepOf(table, entries[k]) == Invoke(c)
  {
    RunCallsFromSteps(Steps(table, entries));
    Run(Steps(table, entries))
  }

  /** Whether `mapToBean` throws instead of returning. */
  predicate DecodeRaises(table: seq<MethodInfo>, entries: seq<Entry>)
    requires Decodable(table)
    ensures DecodeRaises(table, entries) <==>
      exists k :: (0 <= k < |entries| && StepOf(table, entries[k]).Crash? &&
        forall j :: 0 <= j < k ==> !Stops(StepOf(table, entries[j])))
  {
    RaisesAtFirstCrash(Steps(table, entries));
    Raises(Steps(table, entries))
  }

  /** A run raises exactly when one of its steps crashes and no step before it stops the run. */
  lemma {:induction false} RaisesAtFirstCrash(ss: seq<Step>)
    ensures Raises(ss) <==> exists k :: 0 <= k < |ss| && ss[k].Crash? && forall j :: 0 <= j < k ==> !Stops(ss[j])
  {
    if ss != [] && !Stops(ss[0]) {
      RaisesAtFirstCrash(ss[1..]);
      if Raises(ss) {
        var k :| 0 <= k < |ss[1..]| && ss[1..][k].Crash? && forall j :: 0 <= j < k ==> !Stops(ss[1..][j]);
        assert ss[k + 1].Crash? && forall j :: 0 <= j < k + 1 ==> !Stops(ss[j]);
      } else {
        forall k | 0 <= k < |ss| && ss[k].Crash?
          ensures exists j :: 0 <= j < k && Stops(ss[j])
        {
          assert k > 0 && ss[1..][k - 1].Crash?;
          var j :| 0 <= j < k - 1 && Stops(ss[1..][j]);
          assert Stops(ss[j + 1]);
        }
      }
    }
  }

  /**
   * The inner loop of `mapToBean`: scan the methods in table order and stop
   * at the first one whose name is the writer name and whose parameter text
   * is the type text.
   */
  method FindSetter(methods: seq<MethodInfo>, methodName: string, klassParamType: string) returns (found: Option<nat>)
    requires Decodable(methods)
    ensures found == SelectSetter(methods, methodName, klassParamType)
  {
    var j := 0;
    while j < |methods|
      invariant 0 <= j <= |methods|
      invariant forall i :: 0 <= i < j ==> !Matches(methods[i], methodName, klassParamType)
    {
      if methods[j].name == methodName {
        var callMethodParamType := GetMethodParam(methods[j].descriptor);
        if klassParamType == callMethodParamType {
          SelectSetterIsFirst(methods, methodName, klassParamType, j);
          return Some(j);
        }
      }
      NoMatchBefore(methods, methodName, klassParamType, j);
      j := j + 1;
    }
    return None;
  }

  /** A method that is not a match extends the run of non-matching methods before it. */
  lemma NoMatchBefore(table: seq<MethodInfo>, name: string, typeText: string, j: nat)
    requires Decodable(table) && j < |table| && !Matches(table[j], name, typeText)
    requires forall i :: 0 <= i < j ==> !Matches(table[i], name, typeText)
    ensures forall i :: 0 <= i <= j ==> !Matches(table[i], name, typeText)
  {
  }

  /** A matching method with no match before it is the one `SelectSetter` picks. */
  lemma SelectSetterIsFirst(table: seq<MethodInfo>, name: string, typeText: string, j: nat)
    requires Decodable(table) && j < |table| && Matches(table[j], name, typeText)
    requires forall i :: 0 <= i < j ==> !Matches(table[i], name, typeText)
    ensures SelectSetter(table, name, typeText) == Some(j)
  {
  }

  /** What one step contributes to a run. */
  lemma RunStep(ss: seq<Step>, k: nat)
    requires k < |ss|
    ensures ss[k].Invoke? ==> Run(ss[k..]) == [ss[k].call] + Run(ss[k + 1..]) && Raises(ss[k..]) == Raises(ss[k + 1..])
    ensures ss[k].NoSetter? ==> Run(ss[k..]) == Run(ss[k + 1..]) && Raises(ss[k..]) == Raises(ss[k + 1..])
    ensures ss[k].Fail? ==> Run(ss[k..]) == [] && !Raises(ss[k..])
    ensures ss[k].Crash? ==> Run(ss[k..]) == [] && Raises(ss[k..])
  {
    assert ss[k..][0] == ss[k] && ss[k..][1..] == ss[k + 1..];
  }

  /**
   * The body of the outer loop up to the invocation: the type text, the
   * writer name, the inner loop, and what invoking the chosen writer does.
   */
  method EntryStep(methods: seq<MethodInfo>, key: string, value: Value) returns (step: Step)
    requires Decodable(methods)
    ensures step == StepOf(methods, Entry(key, value))
  {
    if value == Null {
      return Crash;
    }
    var medium := ClassText(value);
    var klassParamType := TypeTextAsWritten(medium);
    if klassParamType.None? || |key| == 0 {
      return Crash;
    }
    var methodName := SetterName(key);
    var setter := FindSetter(methods, methodName, klassParamType.value);
    if setter.None? {
      return NoSetter;
    }
    var m := methods[setter.value];
    if m.params != [QualifiedName(value)] {
      return Crash;
    }
    if m.outcome.Throws? {
      return Fail;
    }
    return Invoke(Call(setter.value, value));
  }

  /**
   * `mapToBean`: null when the bean cannot be constructed. An unchecked
   * exception (a null value, an empty key, a type text past the end of the
   * class text, an argument the selected writer does not take) leaves the
   * method, so no bean is returned. Otherwise the bean after the writer
   * invocations of `Decode`; a writer that throws a checked exception ends
   * both loops and the bean is returned with the earlier entries applied.
   */
  method MapToBean(klass: ClassInfo, entries: seq<Entry>) returns (bean: Bean?, raised: bool)
    requires Decodable(klass.methods)
    ensures raised <==> klass.constructible && DecodeRaises(klass.methods, entries)
    ensures bean == null <==> !klass.constructible || raised
    ensures bean != null ==> fresh(bean) && bean.calls == Decode(klass.methods, entries)
  {
    if !klass.constructible {
      return null, false;
    }
    var b := new Bean();
    ghost var ss := Steps(klass.methods, entries);
    var k := 0;
    while k < |entries|
      invariant 0 <= k <= |entries|
      invariant fresh(b)
      invariant b.calls + Run(ss[k..]) == Run(ss)
      invariant Raises(ss[k..]) == Raises(ss)
    {
      RunStep(ss, k);
      var step := EntryStep(klass.methods, entries[k].key, entries[k].value);
      assert step == ss[k];
      match step {
        case Crash =>
          return null, true;
        case Fail =>
          return b, false;
        case NoSetter =>
        case Invoke(c) =>
          AppendAssoc(b.calls, c, Run(ss[k + 1..]));
          b.Invoke(c.setter, c.arg);
      }
      k := k + 1;
    }
    return b, false;
  }

  /** Runs compose: the second run counts when the first holds no stopping step. */
  lemma {:induction false} RunAppend(a: seq<Step>, b: seq<Step>)
    ensures NoStop(a) ==> Run(a + b) == Run(a) + Run(b) && Raises(a + b) == Raises(b)
    ensures !NoStop(a) ==> Run(a + b) == Run(a) && Raises(a + b) == Raises(a)
  {
    if a == [] {
      assert a + b == b;
    } else {
      assert (a + b)[0] == a[0] && (a + b)[1..] == a[1..] + b;
      RunAppend(a[1..], b);
      if !NoStop(a) && !Stops(a[0]) {
        var k :| 0 <= k < |a| && Stops(a[k]);
        assert a[1..][k - 1] == a[k];
      }
      if NoStop(a) {
        forall k | 0 <= k < |a[1..]| ensures !Stops(a[1..][k]) {
          assert a[1..][k] == a[k + 1];
        }
      }
    }
  }

  /** Every call of a run is the call of one of its invoking steps. */
  lemma {:induction false} RunCallsFromSteps(ss: seq<Step>)
    ensures forall c :: c in Run(ss) ==> exists k :: 0 <= k < |ss| && ss[k] == Invoke(c)
  {
    if ss != [] {
      RunCallsFromSteps(ss[1..]);
      forall c | c in Run(ss[1..]) ensures exists k :: 0 <= k < |ss| && ss[k] == Invoke(c) {
        var k :| 0 <= k < |ss[1..]| && ss[1..][k] == Invoke(c);
        assert ss[k + 1] == Invoke(c);
      }
    }
  }

  /** The steps of concatenated entries are the concatenated steps. */
  lemma {:induction false} StepsAppend(table: seq<MethodInfo>, a: seq<Entry>, b: seq<Entry>)
    requires Decodable(table)
    ensures Steps(table, a + b) == Steps(table, a) + Steps(table, b)
  {
    if a != [] {
      assert (a + b)[0] == a[0] && (a + b)[1..] == a[1..] + b;
      StepsAppend(table, a[1..], b);
    } else {
      assert a + b == b;
    }
  }

  lemma StepsSplit(table: seq<MethodInfo>, pre: seq<Entry>, e: Entry, post: seq<Entry>)
    requires Decodable(table)
    ensures Steps(table, pre + [e] + post) == Steps(table, pre) + [StepOf(table, e)] + Steps(table, post)
    ensures Steps(table, pre + post) == Steps(table, pre) + Steps(table, post)
  {
    StepsAppend(table, pre, [e]);
    StepsAppend(table, pre + [e], post);
    StepsAppend(table, pre, post);
    assert Steps(table, [e]) == [StepOf(table, e)];
  }

  /** An entry that selects no writer is a no-op: it invokes nothing and leaves the bean as it is. */
  lemma DecodeSkipsUnmatched(table: seq<MethodInfo>, pre: seq<Entry>, e: Entry, post: seq<Entry>)
    requires Decodable(table) && ReachesLookup(e) && Selected(table, e).None?
    ensures Decode(table, pre + [e] + post) == Decode(table, pre + post)
    ensures DecodeRaises(table, pre + [e] + post) == DecodeRaises(table, pre + post)
  {
    StepsSplit(table, pre, e, post);
    RunSkip(Steps(table, pre), StepOf(table, e), Steps(table, post));
  }

  lemma RunSkip(a: seq<Step>, s: Step, b: seq<Step>)
    requires s.NoSetter?
    ensures Run(a + [s] + b) == Run(a + b) && Raises(a + [s] + b) == Raises(a + b)
  {
    assert a + [s] + b == a + ([s] + b);
    assert Run([s] + b) == Run(b) && Raises([s] + b) == Raises(b) by {
      assert ([s] + b)[1..] == b;
    }
    RunAppend(a, [s] + b);
    RunAppend(a, b);
  }

  /**
   * An entry whose selected writer takes the value and throws a checked
   * exception ends the conversion: the bean keeps the calls of the entries
   * before it, nothing after it runs, and the bean is returned unless an
   * earlier entry already made `mapToBean` throw.
   */
  lemma DecodeStopsAtFailure(table: seq<MethodInfo>, pre: seq<Entry>, e: Entry, post: seq<Entry>)
    requires Decodable(table) && ReachesLookup(e) && Selected(table, e).Some?
    requires TakesValue(table[Selected(table, e).value], e.value)
    requires table[Selected(table, e).value].outcome.Throws?
    ensures Decode(table, pre + [e] + post) == Decode(table, pre)
    ensures DecodeRaises(table, pre + [e] + post) == DecodeRaises(table, pre)
  {
    var s := StepOf(table, e);
    assert s == Fail;
    StepsSplit(table, pre, e, post);
    RunStopAt(Steps(table, pre), s, Steps(table, post));
  }

  /**
   * An entry that crashes, reached after entries none of which stops the
   * loop, makes `mapToBean` throw; the calls made so far are those of the
   * entries before it.
   */
  lemma DecodeRaisesAtCrash(table: seq<MethodInfo>, pre: seq<Entry>, e: Entry, post: seq<Entry>)
    requires Decodable(table)
    requires forall k :: 0 <= k < |pre| ==> !Stops(StepOf(table, pre[k]))
    requires StepOf(table, e).Crash?
    ensures DecodeRaises(table, pre + [e] + post)
    ensures Decode(table, pre + [e] + post) == Decode(table, pre)
  {
    StepsSplit(table, pre, e, post);
    var a := Steps(table, pre);
    assert NoStop(a);
    RunStopAt(a, StepOf(table, e), Steps(table, post));
  }

  lemma RunStopAt(a: seq<Step>, s: Step, b: seq<Step>)
    requires Stops(s)
    ensures Run(a + [s] + b) == Run(a)
    ensures Raises(a + [s] + b) == (Raises(a) || (NoStop(a) && s.Crash?))
  {
    assert a + [s] + b == a + ([s] + b);
    assert Run([s] + b) == [] && Raises([s] + b) == s.Crash?;
    RunAppend(a, [s] + b);
    assert Run(a) + [] == Run(a);
    if NoStop(a) {
      RunAppend(a, []);
      assert a + [] == a;
    }
  }

  /**
   * An entry whose selected writer takes the value and returns normally,
   * after entries none of which stops the loop, invokes exactly that
   * writer with its value, once.
   */
  lemma DecodeInvokesSelected(table: seq<MethodInfo>, pre: seq<Entry>, e: Entry, post: seq<Entry>)
    requires Decodable(table)
    requires forall k :: 0 <= k < |pre| ==> !Stops(StepOf(table, pre[k]))
    requires ReachesLookup(e) && Selected(table, e).Some?
    requires TakesValue(table[Selected(table, e).value], e.value)
    requires table[Selected(table, e).value].outcome.Returns?
    ensures Decode(table, pre + [e] + post) ==
      Decode(table, pre) + [Call(Selected(table, e).value, e.value)] + Decode(table, post)
    ensures DecodeRaises(table, pre + [e] + post) == DecodeRaises(table, post)
  {
    StepsSplit(table, pre, e, post);
    var a := Steps(table, pre);
    assert NoStop(a);
    RunInvoke(a, StepOf(table, e), Steps(table, post));
  }

  lemma RunInvoke(a: seq<Step>, s: Step, b: seq<Step>)
    requires NoStop(a) && s.Invoke?
    ensures Run(a + [s] + b) == Run(a) + [s.call] + Run(b)
    ensures Raises(a + [s] + b) == Raises(b)
  {
    assert a + [s] + b == a + ([s] + b);
    assert Run([s] + b) == [s.call] + Run(b) && Raises([s] + b) == Raises(b) by {
      assert ([s] + b)[1..] == b;
    }
    RunAppend(a, [s] + b);
    AppendAssoc(Run(a), s.call, Run(b));
  }

  /**
   * Every writer invoked is the one some entry selects, by the writer name
   * derived from its key and the type text of its value; it takes exactly
   * one parameter of the value's class, and receives that entry's value.
   */
  lemma DecodeCallsSelected(table: seq<MethodInfo>, entries: seq<Entry>)
    requires Decodable(table)
    ensures forall c :: c in Decode(table, entries) ==>
      exists k :: (0 <= k < |entries| && ReachesLookup(entries[k])
        && Selected(table, entries[k]) == Some(c.setter) && c.arg == entries[k].value
        && c.setter < |table| && TakesValue(table[c.setter], c.arg))
  {
    forall c | c in Decode(table, entries)
      ensures exists k :: (0 <= k < |entries| && ReachesLookup(entries[k])
        && Selected(table, entries[k]) == Some(c.setter) && c.arg == entries[k].value
        && c.setter < |table| && TakesValue(table[c.setter], c.arg))
    {
      var k :| 0 <= k < |entries| && StepOf(table, entries[k]) == Invoke(c);
    }
  }

  /**
   * As written, the type text never holds a lower-case `s`, and a writer
   * is invoked only when its parameter list reads back as that text and
   * names the value's class. So `mapToBean` never passes a value whose
   * qualified class name holds a lower-case `s` (`java.util.HashMap`,
   * `java.util.ArrayList`, any class of a package such as `com.github.hcsp`).
   */
  lemma DecodeArgsLackLowerS(table: seq<MethodInfo>, entries: seq<Entry>)
    requires Decodable(table) && ListsParams(table)
    ensures forall c :: c in Decode(table, entries) ==> c.arg != Null && 's' !in QualifiedName(c.arg)
  {
    forall c | c in Decode(table, entries) ensures c.arg != Null && 's' !in QualifiedName(c.arg) {
      var k :| 0 <= k < |entries| && StepOf(table, entries[k]) == Invoke(c);
      ArgLacksLowerS(table, entries[k], c);
    }
  }

  /** One invoking step: the writer's parameter text is both the type text and the value's class name. */
  lemma ArgLacksLowerS(table: seq<MethodInfo>, e: Entry, c: Call)
    requires Decodable(table) && ListsParams(table) && StepOf(table, e) == Invoke(c)
    ensures c.arg != Null && 's' !in QualifiedName(c.arg)
  {
    var text := TypeTextAsWritten(ClassText(c.arg)).value;
    assert GetMethodParam(table[c.setter].descriptor) == text;
    assert JoinParams(table[c.setter].params) == QualifiedName(c.arg);
    assert forall i :: 0 <= i < |text| ==> text[i] != 's';
  }

  /** A comma-joined parameter list equals a comma-free type name exactly when it is that one name. */
  lemma {:induction false} JoinParamsIsName(ps: seq<string>, q: string)
    requires forall k :: 0 <= k < |ps| ==> ps[k] != [] && ',' !in ps[k]
    requires q != [] && ',' !in q
    ensures JoinParams(ps) == q <==> ps == [q]
  {
    if |ps| > 1 {
      var j := ps[0] + "," + JoinParams(ps[1..]);
      assert j[|ps[0]|] == ',';
    }
  }

  /** On a well-formed descriptor, `getMethodParam` reads back the parameter list. */
  lemma ParamTextOfDescribed(m: MethodInfo, head: string, tail: string)
    requires Describes(m, head, tail)
    ensures HasParamText(m.descriptor) && GetMethodParam(m.descriptor) == JoinParams(m.params)
  {
    assert ')' !in JoinParams(m.params) by {
      JoinParamsNoClose(m.params);
    }
    GetMethodParamOfDescriptor(head, JoinParams(m.params), tail);
  }

  /**
   * The corrected type text on a well-formed descriptor: a method matches
   * a value exactly when it takes one parameter whose declared type name is
   * the value's fully-qualified class name. So a writer taking `int` never
   * receives a `java.lang.Integer`, and a writer whose parameter is a
   * supertype of the value's class is never chosen.
   */
  lemma CorrectedMatchesIffSingleParam(m: MethodInfo, head: string, tail: string, name: string, v: Value)
    requires Describes(m, head, tail)
    requires v != Null && ',' !in QualifiedName(v) && QualifiedName(v) != []
    ensures HasParamText(m.descriptor)
    ensures Matches(m, name, TypeText(ClassText(v))) <==> m.name == name && m.params == [QualifiedName(v)]
  {
    ParamTextOfDescribed(m, head, tail);
    JoinParamsIsName(m.params, QualifiedName(v));
  }

  /**
   * The type text as written, for a class name without a lower-case `s`:
   * it is the qualified name, and a method matches exactly when it takes
   * one parameter of the value's own class.
   */
  lemma MatchesIffSingleParam(m: MethodInfo, head: string, tail: string, name: string, v: Value)
    requires Describes(m, head, tail)
    requires v != Null && ',' !in QualifiedName(v) && QualifiedName(v) != [] && 's' !in QualifiedName(v)
    ensures HasParamText(m.descriptor)
    ensures TypeTextAsWritten(ClassText(v)) == Some(QualifiedName(v))
    ensures Matches(m, name, TypeTextAsWritten(ClassText(v)).value) <==> m.name == name && m.params == [QualifiedName(v)]
  {
    TypeTextAsWrittenAgrees(QualifiedName(v));
    CorrectedMatchesIffSingleParam(m, head, tail, name, v);
  }

  /**
   * The type text as written, for a class name with a lower-case `s`: the
   * writer taking exactly the value's class never matches.
   */
  lemma OwnClassMissedAsWritten(m: MethodInfo, head: string, tail: string, name: string, v: Value)
    requires Describes(m, head, tail)
    requires v != Null && 's' in QualifiedName(v) && TypeTextAsWritten(ClassText(v)).Some?
    requires m.params == [QualifiedName(v)]
    ensures HasParamText(m.descriptor)
    ensures !Matches(m, name, TypeTextAsWritten(ClassText(v)).value)
  {
    ParamTextOfDescribed(m, head, tail);
  }

  /**
   * The type text as written is the qualified name for the values the
   * converter is mostly used with: Boolean, Integer and String.
   */
  lemma BoxedTypeTextAsWritten(v: Value)
    requires v.Bool? || v.Int? || v.Str?
    ensures TypeTextAsWritten(ClassText(v)) == Some(QualifiedName(v))
  {
    var name := if v.Bool? then "Boolean" else if v.Int? then "Integer" else "String";
    NoLowerSInJavaLang(name);
    assert QualifiedName(v) == "java.lang." + name;
    TypeTextAsWrittenAgrees(QualifiedName(v));
  }

  lemma NoLowerSInJavaLang(name: string)
    requires name == "Boolean" || name == "Integer" || name == "String"
    ensures 's' !in "java.lang." + name
  {
    var q := "java.lang." + name;
    forall k | 0 <= k < |q| ensures q[k] != 's' {
      if k >= 10 {
        assert q[k] == name[k - 10];
      }
    }
  }

  lemma {:induction false} JoinParamsNoClose(ps: seq<string>)
    requires forall k :: 0 <= k < |ps| ==> ')' !in ps[k]
    ensures ')' !in JoinParams(ps)
  {
    if |ps| > 1 {
      JoinParamsNoClose(ps[1..]);
    }
  }

  /**
   * Reader and writer meet: when `X` does not start with a lower-case
   * letter and the value's class name holds no lower-case `s`, the key
   * `beanToMap` derives from `getX` makes `mapToBean` select the first
   * writer `setX` that takes exactly the value's class.
   */
  lemma RoundTripSelectsSetter(table: seq<MethodInfo>, x: string, v: Value, i: nat, head: string, tail: string)
    requires Decodable(table) && |x| > 0 && !IsAsciiLower(x[0])
    requires v != Null && ',' !in QualifiedName(v) && QualifiedName(v) != [] && 's' !in QualifiedName(v)
    requires i < |table| && table[i].name == "set" + x && table[i].params == [QualifiedName(v)]
    requires Describes(table[i], head, tail)
    requires forall j :: 0 <= j < i ==> !Matches(table[j], "set" + x, QualifiedName(v))
    ensures ReachesLookup(Entry(GetterKey("get" + x), v))
    ensures Selected(table, Entry(GetterKey("get" + x), v)) == Some(i)
  {
    var key := GetterKey("get" + x);
    SetterNameOfGetterKey(x);
    MatchesIffSingleParam(table[i], head, tail, "set" + x, v);
    SelectSetterIsFirst(table, "set" + x, QualifiedName(v), i);
    assert ReachesLookup(Entry(key, v));
  }
}
