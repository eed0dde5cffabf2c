/**
 * `beanToMap`: read every `getX` reader and every Boolean `isX` predicate of
 * a bean and store the results in a map under the derived keys.
 */
module Encoder {
  import opened Wrappers
  import opened Reflection
  import opened Naming

  /** What one method of the table does to the map being built. */
  datatype Effect = Put(key: string, value: Value) | Skip | Abort

  /**
   * The unchecked failures `beanToMap` does not catch are excluded: a
   * method named exactly `get` (`substring(3, 4)` throws) and an `isX`
   * predicate that takes parameters (`invoke(bean)` throws
   * IllegalArgumentException).
   */
  predicate Readable(m: MethodInfo) {
    && ("get" <= m.name ==> |m.name| > 3)
    && ("is" <= m.name && |m.name| > 2 ==> m.params == [])
  }

  predicate Encodable(table: seq<MethodInfo>) {
    forall i :: 0 <= i < |table| ==> Readable(table[i])
  }

  /**
   * The effect of one loop iteration. A `getX` method, whatever its
   * parameters, stores the result of the zero-argument method of the same
   * name; a missing one (NoSuchMethodException) or a throwing invocation
   * ends the loop. An `isX` method longer than two characters is invoked
   * and stores its result only if that result is a Boolean.
   */
  function EffectOf(table: seq<MethodInfo>, m: MethodInfo): (r: Effect)
    requires Readable(m)
    ensures r.Put? && "get" <= m.name ==>
      && r.key == GetterKey(m.name)
      && FindZeroArg(table, m.name).Some?
      && table[FindZeroArg(table, m.name).value].outcome == Returns(r.value)
    ensures r.Put? && !("get" <= m.name) ==>
      && "is" <= m.name && |m.name| > 2
      && r.key == PredicateKey(m.name)
      && IsBoolean(r.value) && m.outcome == Returns(r.value)
    ensures "get" <= m.name ==> !r.Skip? && (r.Abort? <==>
      FindZeroArg(table, m.name).None? || table[FindZeroArg(table, m.name).value].outcome.Throws?)
    ensures !("get" <= m.name) && "is" <= m.name && |m.name| > 2 ==>
      && (r.Abort? <==> m.outcome.Throws?)
      && (r.Put? <==> m.outcome.Returns? && IsBoolean(m.outcome.value))
    ensures !("get" <= m.name) && !("is" <= m.name && |m.name| > 2) ==> r == Skip
  {
    if "get" <= m.name then
      match FindZeroArg(table, m.name)
      case None => Abort
      case Some(j) =>
        match table[j].outcome
        case Throws(_) => Abort
        case Returns(v) => Put(GetterKey(m.name), v)
    else if "is" <= m.name && |m.name| > 2 then
      match m.outcome
      case Throws(_) => Abort
      case Returns(v) => if IsBoolean(v) then Put(PredicateKey(m.name), v) else Skip
    else Skip
  }

  /** The effect of every method of the table, in table order. */
  function Effects(table: seq<MethodInfo>): (es: seq<Effect>)
    requires Encodable(table)
    ensures |es| == |table|
    ensures forall i :: 0 <= i < |table| ==> es[i] == EffectOf(table, table[i])
  {
    seq(|table|, i requires 0 <= i < |table| => EffectOf(table, table[i]))
  }

  /**
   * A zero-argument `getX` reader that returns normally, and is the first
   * such method of its name, puts its result under the derived key.
   */
  lemma ReaderPuts(table: seq<MethodInfo>, i: nat)
    requires Encodable(table) && i < |table|
    requires "get" <= table[i].name && FindZeroArg(table, table[i].name) == Some(i)
    requires table[i].outcome.Returns?
    ensures Effects(table)[i] == Put(GetterKey(table[i].name), table[i].outcome.value)
  {
    assert Effects(table)[i] == EffectOf(table, table[i]);
  }

  /** The puts a run of effects performs, up to the first exception. */
  function Writes(es: seq<Effect>): (ws: seq<Entry>)
    ensures |ws| <= |es|
  {
    if es == [] then []
    else match es[0]
      case Put(k, v) => [Entry(k, v)] + Writes(es[1..])
      case Skip => Writes(es[1..])
      case Abort => []
  }

  /** The map a sequence of `put` calls leaves behind, starting from an empty map. */
  function ToMap(ws: seq<Entry>): (m: map<string, Value>)
    ensures m.Keys == set w | w in ws :: w.key
    ensures forall k :: k in m ==> Entry(k, m[k]) in ws
  {
    if ws == [] then map[]
    else
      var last := ws[|ws| - 1];
      var m := ToMap(ws[..|ws| - 1]);
      assert ws == ws[..|ws| - 1] + [last];
      m[last.key := last.value]
  }

  /** The index of the first effect that ends the loop, or `|es|`. */
  function FirstAbort(es: seq<Effect>): (r: nat)
    ensures r <= |es|
    ensures forall j :: 0 <= j < r ==> !es[j].Abort?
    ensures r < |es| ==> es[r].Abort?
  {
    if es == [] || es[0].Abort? then 0
    else 1 + FirstAbort(es[1..])
  }

  /** The map `beanToMap` returns. */
  function Encode(table: seq<MethodInfo>): (params: map<string, Value>)
    requires Encodable(table)
    ensures forall k :: k in params ==>
      exists j :: 0 <= j < FirstAbort(Effects(table)) && Effects(table)[j] == Put(k, params[k])
  {
    WritesBefore(Effects(table));
    ToMap(Writes(Effects(table)))
  }

  /**
   * `beanToMap` over the method table of a bean: the loop of the source,
   * with the try around the whole loop, so the first checked exception
   * ends the loop and the entries gathered so far are returned.
   */
  method BeanToMap(table: seq<MethodInfo>) returns (params: map<string, Value>)
    requires Encodable(table)
    ensures params == Encode(table)
  {
    params := map[];
    ghost var es := Effects(table);
    ghost var done: seq<Entry> := [];
    var i := 0;
    while i < |table|
      invariant 0 <= i <= |table|
      invariant done + Writes(es[i..]) == Writes(es)
      invariant params == ToMap(done)
    {
      WritesStep(es, i);
      var m := table[i];
      var methodName := m.name;
      if "get" <= methodName {
        var key := GetterKey(methodName);
        var getter := FindZeroArg(table, methodName);
        if getter.None? {
          assert es[i] == Abort;
          break;
        }
        var outcome := table[getter.value].outcome;
        if outcome.Throws? {
          assert es[i] == Abort;
          break;
        }
        assert es[i] == Put(key, outcome.value);
        ToMapPut(done, Entry(key, outcome.value));
        AppendAssoc(done, Entry(key, outcome.value), Writes(es[i + 1..]));
        params := params[key := outcome.value];
        done := done + [Entry(key, outcome.value)];
      } else if "is" <= methodName && |methodName| > 2 {
        if m.outcome.Throws? {
          assert es[i] == Abort;
          break;
        }
        if IsBoolean(m.outcome.value) {
          var key := PredicateKey(methodName);
          assert es[i] == Put(key, m.outcome.value);
          ToMapPut(done, Entry(key, m.outcome.value));
          AppendAssoc(done, Entry(key, m.outcome.value), Writes(es[i + 1..]));
          params := params[key := m.outcome.value];
          done := done + [Entry(key, m.outcome.value)];
        } else {
          assert es[i] == Skip;
        }
      } else {
        assert es[i] == Skip;
      }
      i := i + 1;
    }
    assert done == Writes(es);
  }

  /** What one effect contributes to the puts of a run. */
  lemma WritesStep(es: seq<Effect>, i: nat)
    requires i < |es|
    ensures es[i].Put? ==> Writes(es[i..]) == [Entry(es[i].key, es[i].value)] + Writes(es[i + 1..])
    ensures es[i].Skip? ==> Writes(es[i..]) == Writes(es[i + 1..])
    ensures es[i].Abort? ==> Writes(es[i..]) == []
  {
    assert es[i..][0] == es[i] && es[i..][1..] == es[i + 1..];
  }

  /** One more `put` updates the map at its key. */
  lemma ToMapPut(ws: seq<Entry>, w: Entry)
    ensures ToMap(ws + [w]) == ToMap(ws)[w.key := w.value]
  {
    assert (ws + [w])[..|ws|] == ws;
  }

  /** In a sequence of puts, the last put of a key determines its value. */
  lemma {:induction false} ToMapLastWins(ws: seq<Entry>, i: nat)
    requires i < |ws|
    requires forall j :: i < j < |ws| ==> ws[j].key != ws[i].key
    ensures ws[i].key in ToMap(ws) && ToMap(ws)[ws[i].key] == ws[i].value
  {
    var init := ws[..|ws| - 1];
    if i < |ws| - 1 {
      ToMapLastWins(init, i);
    }
  }

  /** Splitting the puts at an effect before the first exception. */
  lemma {:induction false} WritesThrough(es: seq<Effect>, i: nat) returns (pre: seq<Entry>)
    requires i < FirstAbort(es) && es[i].Put?
    ensures Writes(es) == pre + [Entry(es[i].key, es[i].value)] + Writes(es[i + 1..])
  {
    if i == 0 {
      pre := [];
    } else {
      assert FirstAbort(es) == 1 + FirstAbort(es[1..]);
      assert es[1..][i - 1] == es[i];
      var rest := WritesThrough(es[1..], i - 1);
      assert es[1..][i..] == es[i + 1..];
      var w := [Entry(es[i].key, es[i].value)];
      if es[0].Put? {
        var h := Entry(es[0].key, es[0].value);
        pre := [h] + rest;
        assert Writes(es) == [h] + Writes(es[1..]);
        assert [h] + (rest + w + Writes(es[i + 1..])) == pre + w + Writes(es[i + 1..]);
      } else {
        pre := rest;
        assert Writes(es) == Writes(es[1..]);
      }
    }
  }

  /** Every put comes from an effect before the first exception. */
  lemma {:induction false} WritesBefore(es: seq<Effect>)
    ensures forall w :: w in Writes(es) ==>
      exists j :: 0 <= j < FirstAbort(es) && es[j] == Put(w.key, w.value)
  {
    if es != [] && !es[0].Abort? {
      WritesBefore(es[1..]);
      forall w | w in Writes(es[1..])
        ensures exists j :: 0 <= j < FirstAbort(es) && es[j] == Put(w.key, w.value)
      {
        var j :| 0 <= j < FirstAbort(es[1..]) && es[1..][j] == Put(w.key, w.value);
        assert es[j + 1] == Put(w.key, w.value);
      }
    }
  }

  /** Past a prefix without exceptions, the first exception is the same one. */
  lemma {:induction false} FirstAbortSuffix(es: seq<Effect>, n: nat)
    requires n <= FirstAbort(es)
    ensures FirstAbort(es[n..]) == FirstAbort(es) - n
  {
    if n > 0 {
      FirstAbortSuffix(es[1..], n - 1);
      assert es[1..][n - 1..] == es[n..];
    }
  }

  /** Later puts win, on a run of effects. */
  lemma WritesLastWins(es: seq<Effect>, i: nat)
    requires i < FirstAbort(es) && es[i].Put?
    requires forall j :: i < j < FirstAbort(es) ==> !(es[j].Put? && es[j].key == es[i].key)
    ensures es[i].key in ToMap(Writes(es)) && ToMap(Writes(es))[es[i].key] == es[i].value
  {
    var pre := WritesThrough(es, i);
    var ws := Writes(es);
    var post := Writes(es[i + 1..]);
    WritesBefore(es[i + 1..]);
    FirstAbortSuffix(es, i + 1);
    forall j | |pre| < j < |ws| ensures ws[j].key != es[i].key {
      var w := ws[j];
      assert w == post[j - |pre| - 1];
      assert w in post;
      var k :| 0 <= k < FirstAbort(es[i + 1..]) && es[i + 1..][k] == Put(w.key, w.value);
      assert es[i + 1 + k] == Put(w.key, w.value);
    }
    ToMapLastWins(ws, |pre|);
  }

  /**
   * Later writes win: a method before the first exception, whose key no
   * later method before that exception derives again, fixes that key's value.
   */
  lemma EncodeLastWriteWins(table: seq<MethodInfo>, i: nat)
    requires Encodable(table)
    requires i < FirstAbort(Effects(table)) && Effects(table)[i].Put?
    requires forall j :: i < j < FirstAbort(Effects(table)) ==>
      !(Effects(table)[j].Put? && Effects(table)[j].key == Effects(table)[i].key)
    ensures Effects(table)[i].key in Encode(table)
    ensures Encode(table)[Effects(table)[i].key] == Effects(table)[i].value
  {
    WritesLastWins(Effects(table), i);
  }

  /** The keys put by a run of effects are those of its puts before the first exception. */
  lemma {:induction false} WritesKeys(es: seq<Effect>)
    ensures (set w | w in Writes(es) :: w.key) ==
      set j | 0 <= j < FirstAbort(es) && es[j].Put? :: es[j].key
  {
    var written := set w | w in Writes(es) :: w.key;
    var all := set j | 0 <= j < FirstAbort(es) && es[j].Put? :: es[j].key;
    if es == [] || es[0].Abort? {
      assert Writes(es) == [] && FirstAbort(es) == 0;
      assert written == {};
      assert all == {};
    } else {
      WritesKeys(es[1..]);
      var head: set<string> := if es[0].Put? then {es[0].key} else {};
      var tail := set j | 0 <= j < FirstAbort(es[1..]) && es[1..][j].Put? :: es[1..][j].key;
      assert written == head + (set w | w in Writes(es[1..]) :: w.key) by {
        if es[0].Put? {
          assert Writes(es) == [Entry(es[0].key, es[0].value)] + Writes(es[1..]);
        } else {
          assert Writes(es) == Writes(es[1..]);
        }
      }
      assert FirstAbort(es) == 1 + FirstAbort(es[1..]);
      forall k | k in all ensures k in head + tail {
        var j :| 0 <= j < FirstAbort(es) && es[j].Put? && es[j].key == k;
        if j > 0 {
          assert es[1..][j - 1] == es[j];
        }
      }
      forall k | k in tail ensures k in all {
        var j :| 0 <= j < FirstAbort(es[1..]) && es[1..][j].Put? && es[1..][j].key == k;
        assert es[j + 1] == es[1..][j];
      }
      if es[0].Put? {
        assert es[0].key in all;
      }
    }
  }

  /**
   * The keys of the result are exactly the keys derived by the methods
   * before the first exception (by all methods when none throws).
   */
  lemma EncodeKeys(table: seq<MethodInfo>)
    requires Encodable(table)
    ensures Encode(table).Keys ==
      set j | 0 <= j < FirstAbort(Effects(table)) && Effects(table)[j].Put? :: Effects(table)[j].key
  {
    WritesKeys(Effects(table));
  }
}
