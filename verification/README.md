# Guide reflection utilities and OS classifier in Dafny

This project models the core of the Guide library (`me.jamiemansfield.guide`):

- `ReflectionUtil.getSuperclassesOf`. It walks a type's supertypes depth-first and in pre-order: the superclass branch first, then each declared interface in declaration order. It never deduplicates.
- `ReflectionUtil.getMethodsAnnotatedWith` and `getFieldsAnnotatedWith`. Each filters a type's directly declared methods or fields.
- `ReflectionUtil.setStaticFinalField`. It clears the `final` modifier on the `Field` object it looks up for a declared static field, and stores a new value through it. A missing field is reported as a wrapped exception.
- The `OperatingSystem` enum. Each constant holds a list of partial names, `test` is a substring match, and `getOs` becomes a pure `Classify(osName)`.

A type is the inductive datatype `Types.Type`. It holds its superclass (an `Option`), its declared interfaces, its declared methods and its declared fields. Type graphs are therefore finite and acyclic by construction. A diamond is one shared sub-value, so the walk is reproduced exactly, duplicates included.

The walk is given an independent meaning through paths. A `Hierarchy.Path` is a sequence of steps, each going either to the superclass or to the `k`-th declared interface. The model proves three things about it:

- position `k` of the walk is the end of the `k`-th path in depth-first order;
- these paths are pairwise distinct;
- every path that exists from the type is listed.

From these it follows that the walk contains exactly the transitive supertypes. Here a transitive supertype is a type reachable through declared superclass and interface edges, not a supertype in the Java language sense: `Object` is assignable from every interface, but an interface's walk never lists it, because `getSuperclass()` of an interface is null. Each supertype appears once per path that reaches it, and the root never appears.

The field mutator works on an abstract table, `FieldMutator.ClassFields`. It holds the class name and maps each declared field name to its `bv32` modifiers and its value. The call returns an `Effect`: the table after the call, plus the exception thrown, if any.

Modules: `Wrappers` (Option), `Strings` (ASCII lower-casing, `Contains`), `Types`, `Hierarchy`, `Annotations`, `FieldMutator`, `HostOs`.

The source and its documentation disagree about the annotation lookups. The documentation says the annotation is looked up on each member. The code looks it up on `m.getClass()` / `f.getClass()`, which is the reflection class `Method` / `Field`. The model follows the code: `MethodsAnnotatedWith` and `FieldsAnnotatedWith` take the annotations present on that reflection class as a parameter. The member-level lookup is modelled beside them (see Findings).

## Model

| member | source | states |
|---|---|---|
| Hierarchy.SuperclassesOf | src/main/java/me/jamiemansfield/guide/ReflectionUtil.java:97-113 | The walk is empty exactly when the type has neither a superclass nor declared interfaces. The superclass, when present, comes first; otherwise the first declared interface comes first. |
| Hierarchy.InterfaceBranches | src/main/java/me/jamiemansfield/guide/ReflectionUtil.java:106-110 | The loop over the declared interfaces from the `i`-th on is empty exactly when no interface is left, and otherwise starts with the `i`-th interface. |
| Hierarchy.WalkShape | src/main/java/me/jamiemansfield/guide/ReflectionUtil.java:100-110 | The walk is the concatenation, over the direct supertypes (superclass, then interfaces in order), of each supertype followed by its own walk. |
| Hierarchy.InterfaceBranchesShape | src/main/java/me/jamiemansfield/guide/ReflectionUtil.java:107-110 | The interface loop from the `i`-th interface on produces, for each remaining interface in order, that interface followed by its walk. |
| Hierarchy.PathsInOrder | src/main/java/me/jamiemansfield/guide/ReflectionUtil.java:97-113 | The non-empty upward paths, listed in the walk's visiting order, are pairwise distinct and all non-empty. |
| Hierarchy.WalkFollowsPaths | src/main/java/me/jamiemansfield/guide/ReflectionUtil.java:100-110 | The walk has one entry per listed path, and entry `k` is the type reached along the `k`-th path. |
| Hierarchy.EveryPathListed | src/main/java/me/jamiemansfield/guide/ReflectionUtil.java:100-110 | Every non-empty path that leads to a type is one of the listed paths, so the walk never stops early. |
| Hierarchy.WalkSound | src/main/java/me/jamiemansfield/guide/ReflectionUtil.java:97-113 | Every element of the walk is a transitive supertype of the root. |
| Hierarchy.WalkComplete | src/main/java/me/jamiemansfield/guide/ReflectionUtil.java:97-113 | Every transitive supertype of the root appears in the walk. |
| Hierarchy.WalkIsAncestors | src/main/java/me/jamiemansfield/guide/ReflectionUtil.java:97-113 | A type is in the walk if and only if it is a transitive supertype of the root. |
| Hierarchy.FollowShrinks | src/main/java/me/jamiemansfield/guide/ReflectionUtil.java:101-110 | Following any non-empty path reaches a strictly smaller type. This is why the recursion terminates. |
| Hierarchy.RootNotInWalk | src/main/java/me/jamiemansfield/guide/ReflectionUtil.java:97-113 | Every element of the walk is strictly smaller than the root, so the root never appears in its own walk. |
| Hierarchy.PathsToExact | src/main/java/me/jamiemansfield/guide/ReflectionUtil.java:100-110 | The set of listed paths from `t` ending at `x` holds exactly the non-empty paths from `t` to `x`. |
| Hierarchy.WalkCountsPaths | src/main/java/me/jamiemansfield/guide/ReflectionUtil.java:107-110 | There is no deduplication: a type occurs in the walk exactly as many times as there are distinct paths from the root to it. |
| Hierarchy.WalkLengthCountsPaths | src/main/java/me/jamiemansfield/guide/ReflectionUtil.java:97-113 | The length of the walk equals the number of distinct non-empty paths. A path is listed if and only if it leads somewhere. |
| Hierarchy.DiamondListsSharedInterfaceTwice | src/main/java/me/jamiemansfield/guide/ReflectionUtil.java:107-110 | A class with superclass Object that declares interfaces Left and Right, both extending Base, walks to [Object, Left, Base, Right, Base], so Base appears twice. |
| Annotations.Filter | src/main/java/me/jamiemansfield/guide/ReflectionUtil.java:73-75 | The stream filter keeps a member if and only if it is declared and the predicate accepts it, and it never lengthens the list. Every occurrence of an accepted member is kept (same multiplicity as in the input) and every rejected one is dropped, so equal members such as overloads are not collapsed. |
| Annotations.FilterIsSubsequence | src/main/java/me/jamiemansfield/guide/ReflectionUtil.java:73-75 | The filter result is an order-preserving subsequence of the declared list. |
| Annotations.FilterConstant | src/main/java/me/jamiemansfield/guide/ReflectionUtil.java:74 | A predicate that ignores the member keeps either the whole list or nothing. |
| Annotations.MethodsAnnotatedWith | src/main/java/me/jamiemansfield/guide/ReflectionUtil.java:72-76 | As written, the result is all declared methods when the annotation is present on the class `Method`, and empty otherwise. |
| Annotations.FieldsAnnotatedWith | src/main/java/me/jamiemansfield/guide/ReflectionUtil.java:85-89 | As written, the result is all declared fields when the annotation is present on the class `Field`, and empty otherwise. |
| Annotations.LookupsAreDeclaredSubsequences | src/main/java/me/jamiemansfield/guide/ReflectionUtil.java:72-89 | Both lookups return order-preserving subsequences of the type's own declared methods or fields, never inherited ones. An empty declared list gives an empty result. |
| Annotations.MethodsMarkedWith | src/main/java/me/jamiemansfield/guide/ReflectionUtil.java:65-76 | The documented lookup: a method is in the result if and only if it is declared on the type and carries the annotation. Each such method occurs as often as it is declared, and the result keeps declaration order (an order-preserving subsequence of the declared methods). |
| Annotations.FieldsMarkedWith | src/main/java/me/jamiemansfield/guide/ReflectionUtil.java:78-89 | The documented lookup: a field is in the result if and only if it is declared on the type and carries the annotation. Each such field occurs as often as it is declared, and the result keeps declaration order (an order-preserving subsequence of the declared fields). |
| Annotations.AnnotatedMethodMissed | src/main/java/me/jamiemansfield/guide/ReflectionUtil.java:74 | A method annotated `Subscribe` is missed by the lookup as written and found by the member-level lookup. |
| Annotations.AnnotatedFieldMissed | src/main/java/me/jamiemansfield/guide/ReflectionUtil.java:87 | A field annotated `Inject` is missed by the lookup as written and found by the member-level lookup. |
| FieldMutator.ClearFinal | src/main/java/me/jamiemansfield/guide/ReflectionUtil.java:57 | `modifiers & ~Modifier.FINAL` has the FINAL bit (0x10) clear and every other bit unchanged. |
| FieldMutator.SetStaticFinalField | src/main/java/me/jamiemansfield/guide/ReflectionUtil.java:50-63 | The call fails if and only if the field is not declared. On failure the table is unchanged, and the exception has the message "Failed to set field: <field> in class: <class>" and a `NoSuchFieldException` cause. On success the named field holds the new value, its modifiers have FINAL cleared and all other bits kept, and every other field and the class name are unchanged. |
| FieldMutator.ReadAfterSet | src/main/java/me/jamiemansfield/guide/ReflectionUtil.java:59 | A reflective read of the static slot (as `Field.get` does) right after a successful set yields the new value. |
| FieldMutator.ClearFinalKeepsStatic | src/main/java/me/jamiemansfield/guide/ReflectionUtil.java:57 | Clearing FINAL keeps the STATIC bit, and clearing it twice equals clearing it once. |
| FieldMutator.SetKeepsStatic | src/main/java/me/jamiemansfield/guide/ReflectionUtil.java:55-59 | After a set, the field is still static, so it can be set again. |
| FieldMutator.LastSetWins | src/main/java/me/jamiemansfield/guide/ReflectionUtil.java:50-63 | Setting a field twice leaves the same table and outcome as setting it only to the second value. |
| FieldMutator.FailureMessage | src/main/java/me/jamiemansfield/guide/ReflectionUtil.java:61 | The message is the 21-character prefix "Failed to set field: ", then the field name, then " in class: ", then the class name: 32 characters plus both names, with the field name readable right after the prefix and the class name at the end. |
| FieldMutator.FailureMessageIdentifiesField | src/main/java/me/jamiemansfield/guide/ReflectionUtil.java:61 | Two failures in one class with the same message concern the same field. |
| FieldMutator.FailureNamesFieldAndClass | src/main/java/me/jamiemansfield/guide/ReflectionUtil.java:61 | The failure message contains both the field name and the class name. |
| Strings.ToLower | src/main/java/me/jamiemansfield/guide/OperatingSystem.java:59 | Lower-casing keeps the length, and maps each character to its ASCII lower-case form. |
| Strings.ToLowerIgnoresCase | src/main/java/me/jamiemansfield/guide/OperatingSystem.java:59 | Two names lower-case to the same string if and only if they differ at most in ASCII letter case. |
| Strings.Contains | src/main/java/me/jamiemansfield/guide/OperatingSystem.java:50 | `s.contains(sub)` holds if and only if some window of `s` equals `sub`. |
| Strings.MissingCharNotContained | src/main/java/me/jamiemansfield/guide/OperatingSystem.java:50 | A string that lacks some character of `sub` does not contain `sub`. |
| HostOs.Partials | src/main/java/me/jamiemansfield/guide/OperatingSystem.java:36-39 | The constants' partial names: only UNKNOWN is declared with none, and no partial is the empty string (an empty partial would match every name). |
| HostOs.PartialsAreLowerCase | src/main/java/me/jamiemansfield/guide/OperatingSystem.java:36-39 | Every partial is unchanged by lower-casing, so matching it against the lower-cased name is a case-insensitive match. |
| HostOs.AnyContained | src/main/java/me/jamiemansfield/guide/OperatingSystem.java:49-50 | `anyMatch(s::contains)` holds if and only if at least one partial is a substring of `s`. |
| HostOs.Test | src/main/java/me/jamiemansfield/guide/OperatingSystem.java:47-51 | `test(s)` holds if and only if one of the constant's partials is a substring of `s`. |
| HostOs.UnknownAcceptsNothing | src/main/java/me/jamiemansfield/guide/OperatingSystem.java:39 | UNKNOWN has no partials, so its test is false for every string. |
| HostOs.FirstMatch | src/main/java/me/jamiemansfield/guide/OperatingSystem.java:61-63 | `filter(test).findFirst()` is empty if and only if no constant accepts. Otherwise it is a constant that accepts, and no earlier constant accepts. |
| HostOs.Classify | src/main/java/me/jamiemansfield/guide/OperatingSystem.java:58-65 | The result is UNKNOWN if and only if no constant accepts the lower-cased name. Otherwise it is the first constant in declaration order that accepts it. |
| HostOs.ClassifyIsByCases | src/main/java/me/jamiemansfield/guide/OperatingSystem.java:36-39 | The classification equals the chain "mac" then MACOS, "nix" or "nux" then LINUX, "win" then WINDOWS, otherwise UNKNOWN, tested on the lower-cased name. |
| HostOs.MacTakesPrecedence | src/main/java/me/jamiemansfield/guide/OperatingSystem.java:36 | A lower-cased name that contains "mac" is MACOS, whatever other partials it contains. |
| HostOs.UnknownIffNoPartial | src/main/java/me/jamiemansfield/guide/OperatingSystem.java:36-39 | The result is UNKNOWN if and only if none of "mac", "nix", "nux" or "win" occurs in the lower-cased name. |
| HostOs.ClassifyIgnoresCase | src/main/java/me/jamiemansfield/guide/OperatingSystem.java:59 | Names that differ only in ASCII letter case are classified alike. |
| HostOs.ClassifyMacOsX | src/main/java/me/jamiemansfield/guide/OperatingSystem.java:36 | "Mac OS X" is classified MACOS. |
| HostOs.ClassifyWindows10 | src/main/java/me/jamiemansfield/guide/OperatingSystem.java:38 | "Windows 10" is classified WINDOWS. |
| HostOs.ClassifyLinux | src/main/java/me/jamiemansfield/guide/OperatingSystem.java:37 | "Linux" is classified LINUX. |
| HostOs.ClassifySunOs | src/main/java/me/jamiemansfield/guide/OperatingSystem.java:58-65 | "SunOS" is classified UNKNOWN. |

## Left out

- `Slf4jSubscriberExceptionHandler`: a logging adapter. Its message is built from `toString()` of opaque subscriber and event objects, and its only effect is a logger call.
- Reading `os.name`: `System.getProperty` is replaced by the `osName` parameter of `Classify`.
- Locale-sensitive `String.toLowerCase`: only ASCII letters are lower-cased.
- JVM reflection mechanics: `setAccessible`, the private `modifiers` field of `Field`, annotation retention and `@Inherited`, and `Class` identity. Types, members and field tables are plain values.
- The `modifiers` field hack fails on newer JDKs. `Field.class.getDeclaredField("modifiers")` then throws `NoSuchFieldException`, which the source wraps with the same message. The model assumes a JDK where the hack works.
- `IllegalAccessException`: a failure of `Field.set` after the modifiers were changed leaves the field half-updated. That path is not modelled, and only `NoSuchFieldException` appears as a cause.
- FieldMutator.SetStaticFinalField: the `modifiers` in the table stand for the `Field` object the call obtains from `getDeclaredField`, not for the class's declared modifiers. The JDK returns a fresh copy on each lookup, so a later `getDeclaredField(field).getModifiers()` still reports FINAL. The model does not distinguish the copy from the declaration.
- FieldMutator.SetStaticFinalField: storing into a non-static field, or a value of the wrong type, raises an exception the source does not catch. Non-static fields are excluded by the precondition `StaticIfDeclared`, and values are of the table's value type `V`.
- Null arguments: a null `clazz` or `field` makes `setStaticFinalField` throw `NullPointerException`, as does a null `clazz` for `getSuperclassesOf` and the annotation lookups, or a null annotation class when the type declares a member. A null `object` is stored without error into a reference-typed field; for a primitive-typed field `Field.set` throws `IllegalArgumentException`, which the source does not catch, after the modifiers were already changed. A null annotation class on a type that declares no members gives an empty list. Dafny values are never null, so none of these cases is modelled.
- Declaration order: the JVM does not promise any order for `getDeclaredMethods`/`getDeclaredFields`. The model takes the declared lists in the order the type records them.
- Constant inlining: for a `static final` compile-time constant, javac copies the value into the code that uses it, so an ordinary `T.F` still reads the old constant after the call. The model's reads are reflective reads of the static slot.
- Concurrency: concurrent readers or writers of a mutated static field are out of scope.
- Stack depth: the recursion of `getSuperclassesOf` is unbounded in the model. A `StackOverflowError` on very deep hierarchies is not modelled.

## Findings

| source | as written | input that shows it | evidently intended | confidence | as-written member | corrected member |
|---|---|---|---|---|---|---|
| src/main/java/me/jamiemansfield/guide/ReflectionUtil.java:74 | The filter tests `m.getClass().isAnnotationPresent(annotClazz)`, i.e. the annotation on the reflection class `Method`. | A class `Listener` declaring one method `onEvent` annotated `@Subscribe`: the result is empty. | The methods that themselves carry the annotation, as the Javadoc describes; here `[onEvent]`. | high; not executed | Annotations.MethodsAnnotatedWith (Annotations.AnnotatedMethodMissed) | Annotations.MethodsMarkedWith |
| src/main/java/me/jamiemansfield/guide/ReflectionUtil.java:87 | The filter tests `f.getClass().isAnnotationPresent(annotClazz)`, i.e. the annotation on the reflection class `Field`. | A class `Service` declaring one field `logger` annotated `@Inject`: the result is empty. | The fields that themselves carry the annotation, as the Javadoc describes; here `[logger]`. | high; not executed | Annotations.FieldsAnnotatedWith (Annotations.AnnotatedFieldMissed) | Annotations.FieldsMarkedWith |
