/**
 * The string derivations of the converter: attribute keys from reader
 * names, writer names from keys, the parameter text of a method
 * descriptor, and the type text of a runtime value.
 */
module Naming {
  import opened Wrappers

  predicate IsAsciiUpper(c: char) { 'A' <= c <= 'Z' }
  predicate IsAsciiLower(c: char) { 'a' <= c <= 'z' }

  /** `toLowerCase` on one character, restricted to ASCII letters. */
  function ToLower(c: char): (r: char)
    ensures !IsAsciiUpper(r)
    ensures IsAsciiUpper(c) ==> IsAsciiLower(r) && r as int - 'a' as int == c as int - 'A' as int
    ensures !IsAsciiUpper(c) ==> r == c
  {
    if IsAsciiUpper(c) then (c as int + 32) as char else c
  }

  /** `toUpperCase` on one character, restricted to ASCII letters. */
  function ToUpper(c: char): (r: char)
    ensures !IsAsciiLower(r)
    ensures IsAsciiLower(c) ==> IsAsciiUpper(r) && r as int - 'A' as int == c as int - 'a' as int
    ensures !IsAsciiLower(c) ==> r == c
  {
    if IsAsciiLower(c) then (c as int - 32) as char else c
  }

  function LowerFirst(x: string): string
    requires |x| > 0
  {
    [ToLower(x[0])] + x[1..]
  }

  function UpperFirst(x: string): string
    requires |x| > 0
  {
    [ToUpper(x[0])] + x[1..]
  }

  /** Key of a `getX` reader: `X` with its first character lowered. */
  function GetterKey(name: string): (k: string)
    requires "get" <= name && |name| > 3
    ensures |k| == |name| - 3 && k[0] == ToLower(name[3]) && k[1..] == name[4..]
    ensures !IsAsciiUpper(k[0])
  {
    LowerFirst(name[3..])
  }

  /** Key of an `isX` predicate: `X` with its first character lowered. */
  function PredicateKey(name: string): (k: string)
    requires "is" <= name && |name| > 2
    ensures |k| == |name| - 2 && k[0] == ToLower(name[2]) && k[1..] == name[3..]
    ensures !IsAsciiUpper(k[0])
  {
    LowerFirst(name[2..])
  }

  /** Writer name for a key: `"set"` followed by the key with its first character raised. */
  function SetterName(key: string): (r: string)
    requires |key| > 0
    ensures "set" <= r && |r| == |key| + 3 && r[3] == ToUpper(key[0]) && r[4..] == key[1..]
    ensures !IsAsciiLower(r[3])
  {
    "set" + UpperFirst(key)
  }

  /** A reader `getX` and a predicate `isX` yield the same key. */
  lemma PredicateKeyIsGetterKey(x: string)
    requires |x| > 0
    ensures GetterKey("get" + x) == PredicateKey("is" + x)
  {
    assert ("get" + x)[3..] == x;
    assert ("is" + x)[2..] == x;
  }

  /** Raising a lowered character gives it back exactly when it was not a lower-case letter. */
  lemma UpperOfLower(c: char)
    ensures ToUpper(ToLower(c)) == c <==> !IsAsciiLower(c)
  {
    if IsAsciiLower(c) {
      assert ToLower(c) == c;
    }
  }

  /** Lowering a raised character gives it back exactly when it was not an upper-case letter. */
  lemma LowerOfUpper(c: char)
    ensures ToLower(ToUpper(c)) == c <==> !IsAsciiUpper(c)
  {
    if IsAsciiUpper(c) {
      assert ToUpper(c) == c;
    }
  }

  /**
   * Round trip reader name -> key -> writer name: the key of `getX` leads
   * back to the writer `setX` exactly when `X` does not start with a
   * lower-case letter (`getfoo` gives key `foo`, whose writer is `setFoo`).
   */
  lemma SetterNameOfGetterKey(x: string)
    requires |x| > 0
    ensures SetterName(GetterKey("get" + x)) == "set" + x <==> !IsAsciiLower(x[0])
  {
    assert ("get" + x)[3..] == x;
    var key := GetterKey("get" + x);
    assert key[0] == ToLower(x[0]) && key[1..] == x[1..];
    UpperOfLower(x[0]);
    if !IsAsciiLower(x[0]) {
      assert UpperFirst(key) == x;
    } else {
      assert SetterName(key)[3] == UpperFirst(key)[0] != x[0] == ("set" + x)[3];
    }
  }

  /**
   * Round trip key -> writer name -> key: the reader named like the writer
   * of `key` yields `key` again exactly when `key` does not start with an
   * upper-case letter.
   */
  lemma GetterKeyOfSetterName(key: string)
    requires |key| > 0
    ensures GetterKey("get" + SetterName(key)[3..]) == key <==> !IsAsciiUpper(key[0])
  {
    var x := SetterName(key)[3..];
    assert x == UpperFirst(key);
    assert ("get" + x)[3..] == x;
    LowerOfUpper(key[0]);
    if !IsAsciiUpper(key[0]) {
      assert LowerFirst(x) == key;
    } else {
      assert GetterKey("get" + x)[0] == LowerFirst(x)[0] != key[0];
    }
  }

  /**
   * The reader every object inherits, `getClass`, yields the key `class`.
   * The name is a parameter equal to the literal, not the literal itself:
   * with the literal inlined into the RoundTrip lemmas, Dafny 4.11 reports
   * them as proved using contradictory assumptions.
   */
  lemma GetClassKey(getter: string)
    requires getter == "getClass"
    ensures "get" <= getter && |getter| > 3 && GetterKey(getter) == "class"
  {
    assert getter[3..] == "Class";
    assert ToLower('C') == 'c';
  }

  /** `String.indexOf(c)`: the first position of `c`, or -1. */
  function IndexOf(s: string, c: char): (r: int)
    ensures -1 <= r < |s|
    ensures r == -1 ==> forall i :: 0 <= i < |s| ==> s[i] != c
    ensures r >= 0 ==> s[r] == c && forall i :: 0 <= i < r ==> s[i] != c
  {
    if s == [] then -1
    else if s[0] == c then 0
    else
      var k := IndexOf(s[1..], c);
      if k == -1 then -1 else k + 1
  }

  /** `String.lastIndexOf(c)`: the last position of `c`, or -1. */
  function LastIndexOf(s: string, c: char): (r: int)
    ensures -1 <= r < |s|
    ensures r == -1 ==> forall i :: 0 <= i < |s| ==> s[i] != c
    ensures r >= 0 ==> s[r] == c && forall i :: r < i < |s| ==> s[i] != c
  {
    if s == [] then -1
    else if s[|s| - 1] == c then |s| - 1
    else LastIndexOf(s[..|s| - 1], c)
  }

  /** A position that holds the first `c` is the one `IndexOf` reports. */
  lemma IndexOfIsFirst(s: string, c: char, k: nat)
    requires k < |s| && s[k] == c
    requires forall i :: 0 <= i < k ==> s[i] != c
    ensures IndexOf(s, c) == k
  {
  }

  /** A position that holds the last `c` is the one `LastIndexOf` reports. */
  lemma LastIndexOfIsLast(s: string, c: char, k: nat)
    requires k < |s| && s[k] == c
    requires forall i :: k < i < |s| ==> s[i] != c
    ensures LastIndexOf(s, c) == k
  {
  }

  /** Where `getMethodParam` does not throw: a `)` exists and no `(` comes before the first one. */
  predicate HasParamText(d: string) {
    IndexOf(d, ')') >= 0 && IndexOf(d, '(') < IndexOf(d, ')')
  }

  /** `getMethodParam`: the text between the first `(` and the first `)`. */
  function GetMethodParam(d: string): (r: string)
    requires HasParamText(d)
    ensures forall i :: 0 <= i < |r| ==> r[i] != ')'
  {
    var open, close := IndexOf(d, '('), IndexOf(d, ')');
    SliceAvoids(d, open + 1, close, ')');
    d[open + 1..close]
  }

  /** A slice of a text avoids every character its positions avoid. */
  lemma SliceAvoids(d: string, lo: nat, hi: nat, c: char)
    requires lo <= hi <= |d|
    requires forall i :: lo <= i < hi ==> d[i] != c
    ensures forall i :: 0 <= i < hi - lo ==> d[lo..hi][i] != c
  {
    forall i | 0 <= i < hi - lo ensures d[lo..hi][i] != c {
      assert d[lo..hi][i] == d[lo + i];
    }
  }

  /**
   * Reading back a parameter list written between parentheses: for a
   * descriptor `head(p)tail` whose head holds no parenthesis and whose `p`
   * holds no `)`, `GetMethodParam` returns exactly `p`.
   */
  lemma GetMethodParamOfDescriptor(head: string, p: string, tail: string)
    requires '(' !in head && ')' !in head && ')' !in p
    ensures HasParamText(head + "(" + p + ")" + tail)
    ensures GetMethodParam(head + "(" + p + ")" + tail) == p
  {
    var d := head + "(" + p + ")" + tail;
    var open, close := |head|, |head| + 1 + |p|;
    forall i | 0 <= i < open ensures d[i] != '(' {
      assert d[i] == head[i];
    }
    IndexOfIsFirst(d, '(', open);
    forall i | 0 <= i < close ensures d[i] != ')' {
      if i < open {
        assert d[i] == head[i];
      } else if i > open {
        assert d[i] == p[i - open - 1];
      }
    }
    IndexOfIsFirst(d, ')', close);
    assert d[open + 1..close] == p;
  }

  /**
   * The type text of a runtime class as the source computes it:
   * `medium.substring(medium.lastIndexOf("s") + 2)`, None where `substring`
   * throws because the last `s` is the final character.
   */
  function TypeTextAsWritten(classText: string): (r: Option<string>)
    ensures r.Some? <==> LastIndexOf(classText, 's') + 2 <= |classText|
    ensures r.Some? ==> |r.value| < |classText| && classText[|classText| - |r.value|..] == r.value
    ensures r.Some? ==> forall i :: 0 <= i < |r.value| ==> r.value[i] != 's'
  {
    var begin := LastIndexOf(classText, 's') + 2;
    if begin <= |classText| then Some(classText[begin..]) else None
  }

  /** The type text the comparison needs: the class text without its `class ` prefix, i.e. the fully-qualified name. */
  function TypeText(classText: string): (r: string)
    requires "class " <= classText
    ensures "class " + r == classText
  {
    classText[6..]
  }

  /** Both agree when the qualified name holds no lower-case `s`: the `s` of `class ` is then the last one. */
  lemma TypeTextAsWrittenAgrees(q: string)
    requires 's' !in q
    ensures TypeTextAsWritten("class " + q) == Some(TypeText("class " + q)) == Some(q)
  {
    var t := "class " + q;
    forall i | 4 < i < |t| ensures t[i] != 's' {
      if i > 5 {
        assert t[i] == q[i - 6];
      }
    }
    LastIndexOfIsLast(t, 's', 4);
  }

  /** As written, a `java.util.HashMap` value gets the type text `Map`, which no parameter type text equals. */
  lemma TypeTextAsWrittenMangles()
    ensures TypeTextAsWritten("class java.util.HashMap") == Some("Map")
    ensures TypeText("class java.util.HashMap") == "java.util.HashMap"
  {
    var t := "class java.util.HashMap";
    assert t[18] == 's' && t[19] == 'h' && t[20] == 'M' && t[21] == 'a' && t[22] == 'p';
    LastIndexOfIsLast(t, 's', 18);
    assert t[20..] == "Map";
  }

  /** As written, a `java.lang.Class` value makes `substring` throw: its class text ends in `s`. */
  lemma TypeTextAsWrittenThrows()
    ensures TypeTextAsWritten("class java.lang.Class") == None
    ensures TypeText("class java.lang.Class") == "java.lang.Class"
  {
    var t := "class java.lang.Class";
    assert |t| == 21 && t[20] == 's';
    LastIndexOfIsLast(t, 's', 20);
  }
}
