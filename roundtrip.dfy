/**
 * Where the two conversions meet: what `mapToBean` makes of the map
 * `beanToMap` returns.
 */
module RoundTrip {
  import opened Wrappers
  import opened Reflection
  import opened Naming
  import opened Encoder
  import opened Decoder

  /**
   * Every bean inherits `getClass()` from `java.lang.Object`, so `beanToMap`
   * stores the bean's `java.lang.Class` object under `class`. Feeding that
   * map back to `mapToBean`, the type text as written is asked to begin past
   * the end of `"class java.lang.Class"`, and the conversion throws.
   */
  lemma ClassEntryDefeatsTypeTextAsWritten(table: seq<MethodInfo>, getter: string, i: nat, r: nat)
    requires Encodable(table)
    requires getter == "getClass" // a parameter, not a literal: see Naming.GetClassKey
    requires FindZeroArg(table, getter) == Some(i) && table[i].outcome == Returns(Obj("java.lang.Class", r))
    requires i < FirstAbort(Effects(table))
    requires forall j :: i < j < FirstAbort(Effects(table)) ==>
      !(Effects(table)[j].Put? && Effects(table)[j].key == "class")
    ensures "class" in Encode(table) && Encode(table)["class"] == Obj("java.lang.Class", r)
    ensures TypeTextAsWritten(ClassText(Encode(table)["class"])).None?
  {
    ClassStored(table, getter, i, r);
    ClassTextThrows(r);
  }

  /** The type text as written of a `java.lang.Class` value is past the end of its class text. */
  lemma ClassTextThrows(r: nat)
    ensures TypeTextAsWritten(ClassText(Obj("java.lang.Class", r))).None?
  {
    assert ClassText(Obj("java.lang.Class", r)) == "class java.lang.Class";
    TypeTextAsWrittenThrows();
  }

  /** `beanToMap` stores what the inherited `getClass()` returns under the key `class`. */
  lemma ClassStored(table: seq<MethodInfo>, getter: string, i: nat, r: nat)
    requires Encodable(table)
    requires getter == "getClass" // a parameter, not a literal: see Naming.GetClassKey
    requires FindZeroArg(table, getter) == Some(i) && table[i].outcome == Returns(Obj("java.lang.Class", r))
    requires i < FirstAbort(Effects(table))
    requires forall j :: i < j < FirstAbort(Effects(table)) ==>
      !(Effects(table)[j].Put? && Effects(table)[j].key == "class")
    ensures "class" in Encode(table) && Encode(table)["class"] == Obj("java.lang.Class", r)
  {
    assert table[i].name == getter;
    GetClassKey(getter);
    ReaderPuts(table, i);
    EncodeLastWriteWins(table, i);
  }

  /** The entry `class -> java.lang.Class` never reaches the writer lookup: `mapToBean` crashes on it. */
  lemma ClassEntryCrashes(klass: seq<MethodInfo>, r: nat)
    requires Decodable(klass)
    ensures !ReachesLookup(Entry("class", Obj("java.lang.Class", r)))
    ensures StepOf(klass, Entry("class", Obj("java.lang.Class", r))) == Crash
  {
    ClassTextThrows(r);
  }

  /**
   * The round trip as written: feeding the map `beanToMap` returns to
   * `mapToBean` throws once the iteration reaches the `class` entry,
   * unless an earlier entry already ended the loop.
   */
  lemma RoundTripRaises(table: seq<MethodInfo>, getter: string, i: nat, r: nat,
                        klass: seq<MethodInfo>, pre: seq<Entry>, post: seq<Entry>)
    requires Encodable(table)
    requires getter == "getClass" // a parameter, not a literal: see Naming.GetClassKey
    requires FindZeroArg(table, getter) == Some(i) && table[i].outcome == Returns(Obj("java.lang.Class", r))
    requires i < FirstAbort(Effects(table))
    requires forall j :: i < j < FirstAbort(Effects(table)) ==>
      !(Effects(table)[j].Put? && Effects(table)[j].key == "class")
    requires Decodable(klass)
    requires forall k :: 0 <= k < |pre| ==> !Stops(StepOf(klass, pre[k]))
    ensures "class" in Encode(table)
    ensures DecodeRaises(klass, pre + [Entry("class", Encode(table)["class"])] + post)
  {
    ClassEntryDefeatsTypeTextAsWritten(table, getter, i, r);
    ClassEntryCrashes(klass, r);
    DecodeRaisesAtCrash(klass, pre, Entry("class", Obj("java.lang.Class", r)), post);
  }
}
