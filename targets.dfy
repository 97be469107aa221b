/**
 * The objects whose fields receive argument values.  Reflection is out of
 * scope, so each registered object is a Target that states which fields it
 * declares and holds the current value of each; the conversion from the
 * raw string to the field's type (Convert.ChangeType) is a given function
 * that may refuse the string.
 */
module Targets {
  import opened Common
  import opened Registry

  /** A converted field value; its representation is the converter's business. */
  type Value(==)

  /** Convert.ChangeType(raw, field type): None when the string does not convert. */
  type Converter = (string, FieldId) -> Option<Value>

  class Target {
    const declared: set<FieldId>
    var values: map<FieldId, Value>

    constructor (declared: set<FieldId>, values: map<FieldId, Value>)
      ensures this.declared == declared && this.values == values
    {
      this.declared := declared;
      this.values := values;
    }
  }

  /** One write the binding pass performs: the raw string for a field, on every instance. */
  datatype Assignment = Assignment(raw: string, field: FieldId)

  /**
   * One write seen from a single instance: an instance that declares the
   * field takes the converted value, any other is left alone.
   */
  function Apply(values: map<FieldId, Value>, declared: set<FieldId>, a: Assignment, convert: Converter)
    : (r: map<FieldId, Value>)
    ensures a.field !in declared ==> r == values
    ensures a.field in declared && convert(a.raw, a.field).Some? ==>
              r == values[a.field := convert(a.raw, a.field).value]
  {
    if a.field in declared then
      match convert(a.raw, a.field)
      case Some(v) => values[a.field := v]
      case None => values
    else values
  }

  /** The writes in order, the later ones over the earlier ones. */
  function ApplyAll(values: map<FieldId, Value>, declared: set<FieldId>, writes: seq<Assignment>, convert: Converter)
    : map<FieldId, Value>
  {
    if writes == [] then values
    else Apply(ApplyAll(values, declared, writes[..|writes| - 1], convert), declared, writes[|writes| - 1], convert)
  }

  /** ApplyAll over `writes` followed by one more write. */
  lemma ApplyAllAppend(values: map<FieldId, Value>, declared: set<FieldId>, writes: seq<Assignment>,
                       a: Assignment, convert: Converter)
    ensures ApplyAll(values, declared, writes + [a], convert)
         == Apply(ApplyAll(values, declared, writes, convert), declared, a, convert)
  {
    assert (writes + [a])[..|writes|] == writes;
  }

  /** A field no write names, or one the instance does not declare, keeps its value (or its absence). */
  lemma {:induction false} ApplyAllUntouched(values: map<FieldId, Value>, declared: set<FieldId>,
                                             writes: seq<Assignment>, convert: Converter, f: FieldId)
    requires f !in declared || forall i :: 0 <= i < |writes| ==> writes[i].field != f
    ensures var r := ApplyAll(values, declared, writes, convert);
      (f in r <==> f in values) && (f in values ==> r[f] == values[f])
    decreases |writes|
  {
    if writes != [] {
      ApplyAllUntouched(values, declared, writes[..|writes| - 1], convert, f);
    }
  }

  /**
   * The last write that names a declared field and converts decides its
   * value: a write whose conversion fails changes nothing.
   */
  lemma {:induction false} ApplyAllLastWriteWins(values: map<FieldId, Value>, declared: set<FieldId>,
                                                 writes: seq<Assignment>, convert: Converter, i: nat)
    requires i < |writes| && writes[i].field in declared
    requires convert(writes[i].raw, writes[i].field).Some?
    requires forall j :: i < j < |writes| ==> writes[j].field != writes[i].field
    ensures var r := ApplyAll(values, declared, writes, convert);
      writes[i].field in r && r[writes[i].field] == convert(writes[i].raw, writes[i].field).value
    decreases |writes|
  {
    var init := writes[..|writes| - 1];
    if i < |writes| - 1 {
      assert init[i] == writes[i];
      ApplyAllLastWriteWins(values, declared, init, convert, i);
    }
  }

  /** The fields an instance holds after the writes: the ones it held, and the declared ones a write converted. */
  lemma {:induction false} ApplyAllDomain(values: map<FieldId, Value>, declared: set<FieldId>,
                                          writes: seq<Assignment>, convert: Converter, f: FieldId)
    ensures f in ApplyAll(values, declared, writes, convert)
        <==> f in values
             || (f in declared && exists i :: 0 <= i < |writes| && writes[i].field == f
                                             && convert(writes[i].raw, f).Some?)
    decreases |writes|
  {
    if writes != [] {
      var init := writes[..|writes| - 1];
      ApplyAllDomain(values, declared, init, convert, f);
      if f in declared && exists i :: 0 <= i < |writes| && writes[i].field == f && convert(writes[i].raw, f).Some? {
        var i :| 0 <= i < |writes| && writes[i].field == f && convert(writes[i].raw, f).Some?;
        if i < |init| {
          assert init[i] == writes[i];
        }
      }
    }
  }
}
