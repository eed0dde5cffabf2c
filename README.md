# map-bean-converter, modelled in Dafny

`MapBeanConverter` converts between a Java bean and a `Map<String, Object>`
by reflection:

- `beanToMap` reads every `getX` reader and every `isX` predicate that
  returns a `Boolean`. It stores each result under the key `x`, which is
  `X` with its first character lowered.
- `mapToBean` constructs the class with its no-argument constructor. For
  every map entry it invokes the first writer named `set` + key (with the
  key's first character raised) whose parameter text, taken from
  `Method.toString()`, equals the type text of the entry's value.

Reflection is replaced by an ordered method table, `Reflection.MethodInfo`.
Each method in it has:

- a name;
- its parameter type names;
- its `Method.toString()` text;
- the outcome of invoking it: a returned value, or one of the checked
  exceptions `Method.invoke` declares.

`Class.getMethod(name)` becomes `Reflection.FindZeroArg`, and
`getClass().toString()` becomes `Reflection.ClassText`.

The modules follow the source:

- `Naming` holds the string derivations of lines 25, 31, 58, 60 and 99-101.
- `Encoder` holds `beanToMap`: a method with the source's loop, proved
  equal to the specification function `Encode`.
- `Decoder` holds `mapToBean`: a `Bean` class that records the writer
  invocations it receives, and a method with the source's two loops, proved
  equal to the specification function `Decode`.
- `RoundTrip` states what happens when the two conversions are composed.

In both conversions the `try` surrounds the whole loop. So the first
checked exception ends the conversion, and the entries gathered or applied
so far are kept. This includes `NoSuchMethodException` from `getMethod`, a
throwing getter or predicate, and a throwing setter. The model follows this
code. It does not follow the documented intent, where only the failing
attribute is skipped.

The decoder follows line 58 as written. The type text of a value starts two
characters after the last lower-case `s` of `class <qualified name>`:

- For a class name without a lower-case `s` (`java.lang.Integer`,
  `java.lang.String`, `java.lang.Boolean`), that text is the qualified name.
  The writer chosen is then the first one whose single parameter is declared
  as exactly that class.
- For any other class name, the text is a shorter tail of it, or `substring`
  throws. So a writer taking the value's own class is never chosen.

Unchecked exceptions in `mapToBean` leave the method, and the model reports
them (the `Crash` step). They come from:

- a null value;
- a type text past the end of the class text;
- an empty key;
- a chosen writer that does not take exactly one parameter of the value's
  class (`invoke` throws IllegalArgumentException).

## Model

| member | source | states |
|---|---|---|
| Reflection.FindZeroArg | src/main/java/com/github/hcsp/reflection/MapBeanConverter.java:26 | `getMethod(name)` finds the first zero-argument method of that name in table order; None (NoSuchMethodException) exactly when there is none |
| Reflection.ClassText | src/main/java/com/github/hcsp/reflection/MapBeanConverter.java:56 | `value.getClass().toString()`: `class ` followed by the value's qualified class name |
| Reflection.IsBoolean | src/main/java/com/github/hcsp/reflection/MapBeanConverter.java:30 | `instanceof Boolean` holds exactly for a Boolean value (an object whose class is `java.lang.Boolean`) |
| Naming.ToLower | src/main/java/com/github/hcsp/reflection/MapBeanConverter.java:25 | `toLowerCase` on one character: an upper-case ASCII letter becomes the same letter in lower case, any other character is unchanged, and the result is never upper case |
| Naming.ToUpper | src/main/java/com/github/hcsp/reflection/MapBeanConverter.java:60 | `toUpperCase` on one character: a lower-case ASCII letter becomes the same letter in upper case, any other character is unchanged, and the result is never lower case |
| Naming.GetterKey | src/main/java/com/github/hcsp/reflection/MapBeanConverter.java:25 | the key of a `getX` name longer than 3: `X` with its first character lowered (`substring(3, 4).toLowerCase() + substring(4)`), three characters shorter than the name, never starting with an upper-case letter |
| Naming.PredicateKey | src/main/java/com/github/hcsp/reflection/MapBeanConverter.java:31 | the key of an `isX` name longer than 2: `X` with its first character lowered (`substring(2, 3).toLowerCase() + substring(3)`), never starting with an upper-case letter |
| Naming.SetterName | src/main/java/com/github/hcsp/reflection/MapBeanConverter.java:60 | the writer name for a non-empty key: `set`, then the key's first character raised, then the rest of the key; its fourth character is never lower case |
| Naming.PredicateKeyIsGetterKey | src/main/java/com/github/hcsp/reflection/MapBeanConverter.java:25-31 | `getX` and `isX` derive the same key, so they collide in the map |
| Naming.SetterNameOfGetterKey | src/main/java/com/github/hcsp/reflection/MapBeanConverter.java:25-60 | the writer name derived from the key of `getX` is `setX` if and only if `X` does not start with a lower-case letter |
| Naming.GetterKeyOfSetterName | src/main/java/com/github/hcsp/reflection/MapBeanConverter.java:25-60 | the key of the reader named like the writer of `key` is `key` again if and only if `key` does not start with an upper-case letter |
| Naming.IndexOf | src/main/java/com/github/hcsp/reflection/MapBeanConverter.java:100 | `indexOf`: the first position of the character, or -1 exactly when it is absent |
| Naming.LastIndexOf | src/main/java/com/github/hcsp/reflection/MapBeanConverter.java:58 | `lastIndexOf`: the last position of the character, or -1 exactly when it is absent |
| Naming.IndexOfIsFirst | src/main/java/com/github/hcsp/reflection/MapBeanConverter.java:100 | a position holding the first occurrence is the one `indexOf` reports |
| Naming.LastIndexOfIsLast | src/main/java/com/github/hcsp/reflection/MapBeanConverter.java:58 | a position holding the last occurrence is the one `lastIndexOf` reports |
| Naming.GetMethodParam | src/main/java/com/github/hcsp/reflection/MapBeanConverter.java:99-101 | the text between the first `(` and the first `)` holds no `)` |
| Naming.GetMethodParamOfDescriptor | src/main/java/com/github/hcsp/reflection/MapBeanConverter.java:99-101 | on `head(p)tail` with no parenthesis in `head` and no `)` in `p`, `getMethodParam` does not throw and returns exactly `p` |
| Naming.TypeTextAsWritten | src/main/java/com/github/hcsp/reflection/MapBeanConverter.java:58 | the type text as written: defined exactly when the last `s` is at least two characters before the end; it is then a proper suffix of the class text that holds no `s` |
| Naming.TypeText | src/main/java/com/github/hcsp/reflection/MapBeanConverter.java:56-58 | the corrected type text: the class text with its `class ` prefix removed, i.e. the qualified name |
| Naming.TypeTextAsWrittenAgrees | src/main/java/com/github/hcsp/reflection/MapBeanConverter.java:58 | for a qualified name without a lower-case `s`, the code as written and the corrected type text both give the qualified name |
| Naming.TypeTextAsWrittenMangles | src/main/java/com/github/hcsp/reflection/MapBeanConverter.java:58 | as written, a `java.util.HashMap` value gets the type text `Map` instead of its qualified name |
| Naming.TypeTextAsWrittenThrows | src/main/java/com/github/hcsp/reflection/MapBeanConverter.java:58 | as written, a `java.lang.Class` value makes `substring` throw |
| Encoder.EffectOf | src/main/java/com/github/hcsp/reflection/MapBeanConverter.java:23-33 | one iteration: a `getX` method never skips; it aborts exactly when no zero-argument method of its name exists or that method throws, and otherwise puts that method's result under `GetterKey`. An `isX` method longer than two characters aborts exactly when it throws, and puts its own result under `PredicateKey` exactly when the result is a Boolean. Any other method puts nothing |
| Encoder.Effects | src/main/java/com/github/hcsp/reflection/MapBeanConverter.java:22-34 | one effect per method of the table, in table order |
| Encoder.ReaderPuts | src/main/java/com/github/hcsp/reflection/MapBeanConverter.java:24-26 | a zero-argument `getX` reader that returns normally, and is the first of its name, puts its result under its key |
| Encoder.Writes | src/main/java/com/github/hcsp/reflection/MapBeanConverter.java:21-38 | the puts performed before the first exception are never more than the methods |
| Encoder.ToMap | src/main/java/com/github/hcsp/reflection/MapBeanConverter.java:17-32 | the map after a sequence of `put` calls has exactly the keys put, and each key maps to a value put under it |
| Encoder.FirstAbort | src/main/java/com/github/hcsp/reflection/MapBeanConverter.java:21-38 | the index of the first method whose iteration throws a caught exception, or the table length when none does |
| Encoder.Encode | src/main/java/com/github/hcsp/reflection/MapBeanConverter.java:16-40 | the map `beanToMap` returns: every key in it maps to a value that a method before the first caught exception put under that key |
| Encoder.BeanToMap | src/main/java/com/github/hcsp/reflection/MapBeanConverter.java:16-40 | the loop of `beanToMap` returns exactly `Encode`, the map of the puts before the first caught exception |
| Encoder.ToMapLastWins | src/main/java/com/github/hcsp/reflection/MapBeanConverter.java:25-32 | in a sequence of puts, the last put of a key determines its value |
| Encoder.WritesLastWins | src/main/java/com/github/hcsp/reflection/MapBeanConverter.java:21-38 | a put before the first exception with no later put of its key before that exception fixes that key's value |
| Encoder.EncodeLastWriteWins | src/main/java/com/github/hcsp/reflection/MapBeanConverter.java:22-38 | last write wins: the value of a key in the result is that of the last method before the first exception that derives the key |
| Encoder.WritesKeys | src/main/java/com/github/hcsp/reflection/MapBeanConverter.java:21-38 | the keys written are exactly those of the puts before the first exception |
| Encoder.EncodeKeys | src/main/java/com/github/hcsp/reflection/MapBeanConverter.java:16-40 | the keys of `beanToMap`'s result are exactly the keys derived by the methods before the first caught exception |
| Naming.GetClassKey | src/main/java/com/github/hcsp/reflection/MapBeanConverter.java:19-25 | the reader `getClass`, which every bean inherits, yields the key `class` |
| Decoder.ReachesLookup | src/main/java/com/github/hcsp/reflection/MapBeanConverter.java:55-60 | an entry reaches the writer lookup exactly when its value is not null, its key is not empty, and the last `s` of the class text lies at least two characters before its end, so that none of `getClass()`, `substring` on line 58 or `key.substring(0, 1)` throws |
| Decoder.Matches | src/main/java/com/github/hcsp/reflection/MapBeanConverter.java:65-69 | a matching method has the writer name, and the type text it matches holds no `)` |
| Decoder.TakesValue | src/main/java/com/github/hcsp/reflection/MapBeanConverter.java:70 | `invoke(bean, value)` accepts the value exactly when the method has one parameter whose type name is the value's qualified class name |
| Decoder.Selected | src/main/java/com/github/hcsp/reflection/MapBeanConverter.java:58-74 | the writer an entry selects has the writer name derived from the key and the parameter text equal to the type text as written; there is none exactly when no method of the table matches both |
| Decoder.SelectSetter | src/main/java/com/github/hcsp/reflection/MapBeanConverter.java:64-74 | for a given type text, the writer chosen is the first method in table order whose name and parameter text match; None exactly when no method matches |
| Decoder.SelectSetterIsFirst | src/main/java/com/github/hcsp/reflection/MapBeanConverter.java:64-71 | a matching method with no match before it is the one chosen |
| Decoder.FindSetter | src/main/java/com/github/hcsp/reflection/MapBeanConverter.java:63-74 | the inner loop returns exactly the writer `SelectSetter` specifies |
| Decoder.Bean.constructor | src/main/java/com/github/hcsp/reflection/MapBeanConverter.java:52 | a newly constructed bean has received no writer invocation |
| Decoder.Bean.Invoke | src/main/java/com/github/hcsp/reflection/MapBeanConverter.java:70 | an invocation that returns normally is appended to the bean's invocations |
| Decoder.StepOf | src/main/java/com/github/hcsp/reflection/MapBeanConverter.java:54-75 | for one entry: crash when the value is null, the type text as written throws, or the key is empty. Otherwise do nothing exactly when no writer matches. For a matching writer: crash exactly when it does not take exactly one parameter of the value's class; end the loop exactly when it throws a checked exception; invoke it with the entry's value exactly when it returns normally |
| Decoder.EntryStep | src/main/java/com/github/hcsp/reflection/MapBeanConverter.java:54-73 | the body of the outer loop computes exactly `StepOf` |
| Decoder.Steps | src/main/java/com/github/hcsp/reflection/MapBeanConverter.java:53-75 | one step per entry, in iteration order |
| Decoder.Run | src/main/java/com/github/hcsp/reflection/MapBeanConverter.java:51-78 | the invocations performed before the first step that stops the loop, never more than the steps |
| Decoder.RunStep | src/main/java/com/github/hcsp/reflection/MapBeanConverter.java:53-75 | an invoking step adds its call, a step with no writer adds nothing, a failing step ends the run without raising, a crashing step ends it raising |
| Decoder.Decode | src/main/java/com/github/hcsp/reflection/MapBeanConverter.java:51-78 | the invocations `mapToBean` makes: never more than the entries, and each one the invocation step of some entry |
| Decoder.DecodeRaises | src/main/java/com/github/hcsp/reflection/MapBeanConverter.java:51-78 | `mapToBean` throws exactly when some entry crashes and no entry before it stops the loop |
| Decoder.RaisesAtFirstCrash | src/main/java/com/github/hcsp/reflection/MapBeanConverter.java:51-78 | a run of steps raises exactly when one step crashes and no step before it stops the run |
| Decoder.MapToBean | src/main/java/com/github/hcsp/reflection/MapBeanConverter.java:49-81 | null when the constructor fails. It raises exactly when the bean is constructible and the first stopping step is a crash, and then returns no bean. Otherwise it returns a fresh bean whose invocations are exactly `Decode` |
| Decoder.RunAppend | src/main/java/com/github/hcsp/reflection/MapBeanConverter.java:51-78 | runs compose: with no stopping step in the first run, the invocations add up and the second run decides whether the conversion raises; otherwise the second run contributes nothing |
| Decoder.StepsAppend | src/main/java/com/github/hcsp/reflection/MapBeanConverter.java:53-75 | the steps of concatenated entries are the concatenated steps |
| Decoder.DecodeSkipsUnmatched | src/main/java/com/github/hcsp/reflection/MapBeanConverter.java:64-75 | an entry that reaches the lookup and selects no writer changes nothing: removing it gives the same invocations and the same raising |
| Decoder.DecodeStopsAtFailure | src/main/java/com/github/hcsp/reflection/MapBeanConverter.java:70-78 | an entry whose writer takes the value and throws a checked exception ends the conversion: only the invocations of the earlier entries remain, and it raises only if the earlier entries do |
| Decoder.DecodeRaisesAtCrash | src/main/java/com/github/hcsp/reflection/MapBeanConverter.java:56-70 | an entry that crashes, after entries that do not stop the loop, makes `mapToBean` throw, with only the earlier invocations made |
| Decoder.RunStopAt | src/main/java/com/github/hcsp/reflection/MapBeanConverter.java:51-78 | a stopping step keeps only the calls before it, and raises exactly when it is a crash and nothing before it stopped, or something before it raised |
| Decoder.DecodeInvokesSelected | src/main/java/com/github/hcsp/reflection/MapBeanConverter.java:64-72 | an entry whose selected writer takes the value and returns normally, after entries that do not stop the loop, invokes exactly that writer once with its value, between the invocations of the entries before and after it |
| Decoder.DecodeCallsSelected | src/main/java/com/github/hcsp/reflection/MapBeanConverter.java:53-75 | every invocation is of the writer some entry selects through the type text as written; that writer takes exactly one parameter of the value's class, and receives that entry's value |
| Decoder.DecodeArgsLackLowerS | src/main/java/com/github/hcsp/reflection/MapBeanConverter.java:56-70 | as written, when every descriptor lists its method's own parameter types, `mapToBean` never passes a writer a null value or a value whose qualified class name holds a lower-case `s` |
| Decoder.ArgLacksLowerS | src/main/java/com/github/hcsp/reflection/MapBeanConverter.java:56-70 | the value an invoking step passes is not null, and its qualified class name holds no lower-case `s` |
| Decoder.JoinParamsIsName | src/main/java/com/github/hcsp/reflection/MapBeanConverter.java:67-69 | a parameter list equals a single comma-free type name if and only if it consists of that name alone |
| Decoder.JoinParamsNoClose | src/main/java/com/github/hcsp/reflection/MapBeanConverter.java:67 | a parameter list built from names without `)` holds no `)` |
| Decoder.ParamTextOfDescribed | src/main/java/com/github/hcsp/reflection/MapBeanConverter.java:99-101 | on a well-formed `Method.toString()` text, `getMethodParam` reads back the comma-joined parameter list |
| Decoder.CorrectedMatchesIffSingleParam | src/main/java/com/github/hcsp/reflection/MapBeanConverter.java:58-69 | with the corrected type text, a method matches a value if and only if it has the writer name and exactly one parameter, declared as the value's own qualified class (no primitives, no supertypes) |
| Decoder.MatchesIffSingleParam | src/main/java/com/github/hcsp/reflection/MapBeanConverter.java:56-69 | with the type text as written and a class name without a lower-case `s`, the type text is the qualified name, and a method matches if and only if it has the writer name and exactly one parameter of the value's own class |
| Decoder.OwnClassMissedAsWritten | src/main/java/com/github/hcsp/reflection/MapBeanConverter.java:56-69 | with the type text as written and a class name holding a lower-case `s`, a writer whose single parameter is the value's own class never matches |
| Decoder.BoxedTypeTextAsWritten | src/main/java/com/github/hcsp/reflection/MapBeanConverter.java:56-58 | for Boolean, Integer and String values the type text as written is the qualified name |
| Decoder.NoLowerSInJavaLang | src/main/java/com/github/hcsp/reflection/MapBeanConverter.java:56-58 | `java.lang.Boolean`, `java.lang.Integer` and `java.lang.String` hold no lower-case `s` |
| Decoder.RoundTripSelectsSetter | src/main/java/com/github/hcsp/reflection/MapBeanConverter.java:25-69 | when `X` does not start with a lower-case letter and the value's class name has no lower-case `s`, the key derived from `getX` reaches the lookup and selects the first writer `setX` that takes exactly the value's class |
| RoundTrip.ClassEntryDefeatsTypeTextAsWritten | src/main/java/com/github/hcsp/reflection/MapBeanConverter.java:19-58 | `beanToMap` stores the bean's `java.lang.Class` under `class` (via the inherited `getClass()`), and on that entry the type text as written throws |
| RoundTrip.ClassStored | src/main/java/com/github/hcsp/reflection/MapBeanConverter.java:19-26 | `beanToMap` stores the `java.lang.Class` that the inherited `getClass()` returns under the key `class`, unless a later method overwrites that key |
| RoundTrip.ClassTextThrows | src/main/java/com/github/hcsp/reflection/MapBeanConverter.java:56-58 | for a `java.lang.Class` value, the type text as written starts past the end of its class text, so `substring` throws |
| RoundTrip.ClassEntryCrashes | src/main/java/com/github/hcsp/reflection/MapBeanConverter.java:56-58 | the entry `class -> java.lang.Class` never reaches the writer lookup: its step is a crash |
| RoundTrip.RoundTripRaises | src/main/java/com/github/hcsp/reflection/MapBeanConverter.java:19-78 | feeding `beanToMap`'s result to `mapToBean` throws once the iteration reaches the `class` entry, unless an earlier entry already ended the loop |

## Left out

- Reflection is not modelled. `getMethods()`, `getMethod`, `invoke` and `getConstructor().newInstance()` are replaced by the method table and its fixed outcomes.
- The method table's order stands for the order `getMethods()` returns. The entries' order stands for the `HashMap` iteration order. Both orders are inputs, not computed.
- `main` and the `DemoJavaBean` fixture are not modelled; they are a demonstration and print to standard output.
- `printStackTrace` in both `catch` blocks is output only, and is left out.
- `getMethods` (lines 89-91) only delegates to reflection, which is not modelled.
- Case mapping covers ASCII letters only. Java's `toLowerCase`/`toUpperCase` map other Unicode letters too, and are locale-sensitive.
- Encoder.EffectOf: the `isX` branch invokes the predicate twice (lines 30 and 32). The model invokes it once, because outcomes are fixed per method.
- The outcome of invoking a writer does not depend on its argument. What a writer's body does to the bean's state is not modelled; the bean records only which writers it received, and with which values. So idempotence of repeated writes, and the bean's field values, are not stated.
- A writer that throws is not recorded as an invocation on the bean.
- Unchecked exceptions in `beanToMap` are excluded by preconditions, not modelled as outcomes:
  - a method named exactly `get` (`substring(3, 4)` throws);
  - an `isX` method with parameters (`invoke(bean)` throws IllegalArgumentException).
- A descriptor without a parameter list is excluded by `Decoder.Decodable`; `Method.toString()` always has one.
- A null map key is not representable, because keys are strings. In the source, `key.substring(0, 1)` throws NullPointerException on it.
- StepOf: a writer is taken to accept a value only when its single parameter is the value's own class. A writer whose parameter is a supertype whose name equals the type text is treated as throwing IllegalArgumentException, because subtyping is not modelled.
- Decoder.MapToBean: when an unchecked exception leaves `mapToBean`, the model returns no bean and sets `raised`. The partly written bean that Java discards is not returned.
- Generic type arguments and the unchecked cast `(T) bean` carry no behaviour, and are left out.

## Findings

| source | as written | input that shows it | evidently intended | confidence | as-written member | corrected member |
|---|---|---|---|---|---|---|
| src/main/java/com/github/hcsp/reflection/MapBeanConverter.java:58 | `medium.substring(medium.lastIndexOf("s") + 2)` starts the type text two characters after the last lower-case `s` of the class text | a `java.util.HashMap` value gives type text `Map`, so a writer taking `java.util.HashMap` is not found; a `java.util.ArrayList` value gives the empty text, which matches a writer `setX()` without parameters, and `invoke` then throws IllegalArgumentException; a `java.lang.Class` value (which `beanToMap` stores under key `class` through `getClass()`) makes `substring` throw, so `mapToBean(k, beanToMap(b))` throws | drop the `class ` prefix, leaving the qualified name that `getMethodParam` returns for the parameter | not executed | Naming.TypeTextAsWritten, Naming.TypeTextAsWrittenMangles, Naming.TypeTextAsWrittenThrows, Decoder.StepOf, Decoder.OwnClassMissedAsWritten, Decoder.DecodeArgsLackLowerS, RoundTrip.ClassEntryDefeatsTypeTextAsWritten, RoundTrip.RoundTripRaises | Naming.TypeText, Naming.TypeTextAsWrittenAgrees, Decoder.CorrectedMatchesIffSingleParam |
