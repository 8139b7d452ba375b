/** `ReflectionUtil.setStaticFinalField` over an abstract table of the static
    fields a class declares. The operation looks the field up among the
    class's declared fields, clears its `final` modifier bit and stores the
    new value; a missing field is reported as an exception whose message
    names the field and the class, with the lookup failure as its cause. */
module FieldMutator {
  import opened Wrappers
  import Strings

  /** `java.lang.reflect.Modifier.STATIC`. */
  const STATIC: bv32 := 0x8
  /** `java.lang.reflect.Modifier.FINAL`. */
  const FINAL: bv32 := 0x10

  /** A declared field: its modifier bits and the value in its static slot. */
  datatype Slot<V> = Slot(modifiers: bv32, value: V)

  /** A class as the mutator sees it: its name (`Class.getName()`) and its
      declared fields by name. */
  datatype ClassFields<V> = ClassFields(className: string, fields: map<string, Slot<V>>)

  /** The exception that caused the failure. */
  datatype Cause = NoSuchFieldException(fieldName: string)

  /** The `java.lang.Exception` thrown by the operation. */
  datatype Exception = Exception(message: string, cause: Cause)

  /** What the call leaves behind: the field table and the exception thrown, if any. */
  datatype Effect<V> = Effect(after: ClassFields<V>, thrown: Option<Exception>)

  /** The message of the wrapping exception. The field name sits right after
      the fixed 21-character prefix and the class name closes the message, so
      both can be read back from it. */
  function FailureMessage(field: string, className: string): (r: string)
    ensures |r| == |field| + |className| + 32
    ensures r[..21] == "Failed to set field: "
    ensures r[21..21 + |field|] == field
    ensures r[21 + |field|..|r| - |className|] == " in class: "
    ensures r[|r| - |className|..] == className
  {
    "Failed to set field: " + field + " in class: " + className
  }

  /** `modifiers & ~Modifier.FINAL`: the final bit cleared, every other bit kept. */
  function ClearFinal(modifiers: bv32): (r: bv32)
    ensures r & FINAL == 0
    ensures r & !FINAL == modifiers & !FINAL
  {
    modifiers & !FINAL
  }

  /** The call can only store into a static field; storing into an instance
      field with a `null` receiver raises an exception the source does not
      catch. */
  ghost predicate StaticIfDeclared<V>(c: ClassFields<V>, field: string) {
    field in c.fields ==> c.fields[field].modifiers & STATIC != 0
  }

  function SetStaticFinalField<V>(c: ClassFields<V>, field: string, value: V): (r: Effect<V>)
    requires StaticIfDeclared(c, field)
    ensures r.thrown.None? <==> field in c.fields
    ensures field !in c.fields ==> r.after == c
    ensures field !in c.fields ==>
      r.thrown == Some(Exception(FailureMessage(field, c.className), NoSuchFieldException(field)))
    ensures r.after.className == c.className
    ensures r.after.fields.Keys == c.fields.Keys
    ensures forall f :: f in c.fields && f != field ==> r.after.fields[f] == c.fields[f]
    ensures field in c.fields ==> r.after.fields[field].value == value
    ensures field in c.fields ==> r.after.fields[field].modifiers == ClearFinal(c.fields[field].modifiers)
  {
    if field !in c.fields then
      Effect(c, Some(Exception(FailureMessage(field, c.className), NoSuchFieldException(field))))
    else
      var slot := c.fields[field];
      var cleared := ClearFinal(slot.modifiers);
      Effect(c.(fields := c.fields[field := Slot(cleared, value)]), None)
  }

  /** The value in the static slot of `field`, if the class declares it. */
  function GetStatic<V>(c: ClassFields<V>, field: string): Option<V> {
    if field in c.fields then Some(c.fields[field].value) else None
  }

  /** A read straight after a successful set sees the new value. */
  lemma ReadAfterSet<V>(c: ClassFields<V>, field: string, value: V)
    requires StaticIfDeclared(c, field)
    requires field in c.fields
    ensures GetStatic(SetStaticFinalField(c, field, value).after, field) == Some(value)
  {
  }

  /** Clearing `FINAL` keeps `STATIC`, and clearing it twice is clearing it once. */
  lemma ClearFinalKeepsStatic(m: bv32)
    ensures ClearFinal(m) & STATIC == m & STATIC
    ensures ClearFinal(ClearFinal(m)) == ClearFinal(m)
  {
  }

  /** A successful set keeps the field static, so it can be set again. */
  lemma SetKeepsStatic<V>(c: ClassFields<V>, field: string, value: V)
    requires StaticIfDeclared(c, field)
    ensures StaticIfDeclared(SetStaticFinalField(c, field, value).after, field)
  {
    if field in c.fields {
      ClearFinalKeepsStatic(c.fields[field].modifiers);
    }
  }

  /** The last write wins: a second set of the same field leaves the table as
      if only the second value had been stored. */
  lemma LastSetWins<V>(c: ClassFields<V>, field: string, first: V, second: V)
    requires StaticIfDeclared(c, field)
    ensures
      var once := SetStaticFinalField(c, field, first).after;
      && StaticIfDeclared(once, field)
      && SetStaticFinalField(once, field, second) == SetStaticFinalField(c, field, second)
  {
    SetKeepsStatic(c, field, first);
    var once := SetStaticFinalField(c, field, first).after;
    if field in c.fields {
      var cleared := ClearFinal(c.fields[field].modifiers);
      ClearFinalKeepsStatic(c.fields[field].modifiers);
      assert once == c.(fields := c.fields[field := Slot(cleared, first)]);
      assert once.fields[field := Slot(cleared, second)] == c.fields[field := Slot(cleared, second)];
    }
  }

  /** Failures for two fields of one class carry different messages. */
  lemma FailureMessageIdentifiesField(field1: string, field2: string, className: string)
    requires FailureMessage(field1, className) == FailureMessage(field2, className)
    ensures field1 == field2
  {
  }

  /** The exception message mentions both the field and the class. */
  lemma FailureNamesFieldAndClass(field: string, className: string)
    ensures Strings.Contains(FailureMessage(field, className), field)
    ensures Strings.Contains(FailureMessage(field, className), className)
  {
    var msg := FailureMessage(field, className);
    assert msg == "Failed to set field: " + field + (" in class: " + className);
    Strings.ContainsInfix("Failed to set field: ", field, " in class: " + className);
    assert msg == "Failed to set field: " + field + " in class: " + className + [];
    Strings.ContainsInfix("Failed to set field: " + field + " in class: ", className, []);
  }
}
