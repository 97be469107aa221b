/**
 * ArgumentDictionary: the descriptor registry.  Every field descriptor is
 * filed under its long name and under its short name; a lookup returns the
 * group ordered by position, and a flattened view of every stored field is
 * cached until the next mutation.
 */
module Registry {
  import opened Common
  import opened Sequences

  /** ArgumentAttribute: what one field declares.  A position of -1 marks a flag. */
  datatype Descriptor = Descriptor(
    defaultValue: string,
    longName: string,
    shortName: string,
    exampleValue: string,
    description: string,
    position: int,
    required: bool)

  /** Stands for the reflected field (FieldInfo) a descriptor decorates. */
  type FieldId = nat

  /** AttributeField: a descriptor paired with the field it decorates. */
  datatype Field = Field(attr: Descriptor, id: FieldId)

  // ---------------------------------------------------------------------
  // Ordering a group by position (Enumerable.OrderBy, a stable sort)
  // ---------------------------------------------------------------------

  predicate SortedByPosition(s: seq<Field>)
  {
    forall i, j :: 0 <= i < j < |s| ==> s[i].attr.position <= s[j].attr.position
  }

  /** Place `f` after every element whose position is not larger than its own. */
  function Insert(f: Field, s: seq<Field>): (r: seq<Field>)
    requires SortedByPosition(s)
    ensures SortedByPosition(r)
    ensures multiset(r) == multiset(s) + multiset{f}
    ensures |r| == |s| + 1
    ensures r[0] == f || (s != [] && r[0] == s[0])
  {
    if s == [] then [f]
    else if s[0].attr.position > f.attr.position then [f] + s
    else
      var rest := Insert(f, s[1..]);
      assert s == [s[0]] + s[1..];
      assert s[0].attr.position <= rest[0].attr.position;
      [s[0]] + rest
  }

  /** OrderBy(x => x.Attr.Position): ascending positions, a permutation of the group. */
  function SortByPosition(s: seq<Field>): (r: seq<Field>)
    ensures SortedByPosition(r)
    ensures multiset(r) == multiset(s)
    ensures |r| == |s|
  {
    if s == [] then []
    else
      FrontLast(s);
      Insert(s[|s| - 1], SortByPosition(s[..|s| - 1]))
  }

  /** The members of `s` at position `p`, in their order in `s`. */
  function AtPosition(s: seq<Field>, p: int): seq<Field>
  {
    if s == [] then []
    else (if s[0].attr.position == p then [s[0]] else []) + AtPosition(s[1..], p)
  }

  lemma {:induction false} AtPositionConcat(a: seq<Field>, b: seq<Field>, p: int)
    ensures AtPosition(a + b, p) == AtPosition(a, p) + AtPosition(b, p)
  {
    if a == [] {
      assert a + b == b;
    } else {
      assert (a + b)[0] == a[0] && (a + b)[1..] == a[1..] + b;
      AtPositionConcat(a[1..], b, p);
    }
  }

  lemma {:induction false} AtPositionNone(s: seq<Field>, p: int)
    requires forall i :: 0 <= i < |s| ==> s[i].attr.position > p
    ensures AtPosition(s, p) == []
  {
    if s != [] {
      AtPositionNone(s[1..], p);
    }
  }

  lemma {:induction false} InsertAtPosition(f: Field, s: seq<Field>, p: int)
    requires SortedByPosition(s)
    ensures AtPosition(Insert(f, s), p)
         == AtPosition(s, p) + (if f.attr.position == p then [f] else [])
  {
    var tail := if f.attr.position == p then [f] else [];
    if s == [] {
      assert AtPosition([f], p) == tail + AtPosition([], p);
    } else if s[0].attr.position > f.attr.position {
      assert Insert(f, s) == [f] + s;
      assert ([f] + s)[1..] == s;
      assert AtPosition([f] + s, p) == tail + AtPosition(s, p);
      if f.attr.position == p {
        AtPositionNone(s, p);
      }
    } else {
      var rest := Insert(f, s[1..]);
      var head := if s[0].attr.position == p then [s[0]] else [];
      assert Insert(f, s) == [s[0]] + rest;
      assert ([s[0]] + rest)[1..] == rest;
      InsertAtPosition(f, s[1..], p);
      calc {
        AtPosition([s[0]] + rest, p);
        head + AtPosition(rest, p);
        head + (AtPosition(s[1..], p) + tail);
        { ConcatAssociative(head, AtPosition(s[1..], p), tail); }
        (head + AtPosition(s[1..], p)) + tail;
        AtPosition(s, p) + tail;
      }
    }
  }

  /** Ties keep their insertion order: for every position, the fields at it appear in the same order. */
  lemma {:induction false} SortIsStable(s: seq<Field>, p: int)
    ensures AtPosition(SortByPosition(s), p) == AtPosition(s, p)
  {
    if s != [] {
      var init, last := s[..|s| - 1], s[|s| - 1];
      var tail := if last.attr.position == p then [last] else [];
      assert s == init + [last];
      assert AtPosition([last], p) == tail by {
        assert [last][1..] == [];
      }
      calc {
        AtPosition(SortByPosition(s), p);
        AtPosition(Insert(last, SortByPosition(init)), p);
        { InsertAtPosition(last, SortByPosition(init), p); }
        AtPosition(SortByPosition(init), p) + tail;
        { SortIsStable(init, p); }
        AtPosition(init, p) + tail;
        { AtPositionConcat(init, [last], p); }
        AtPosition(s, p);
      }
    }
  }

  // ---------------------------------------------------------------------
  // The dictionary's contents
  // ---------------------------------------------------------------------

  /**
   * Dictionary<string, List<AttributeField>>: the keys in the order they
   * were first added (the order the dictionary enumerates them in) and the
   * list held under each key.
   */
  datatype Container = Container(keys: seq<string>, groups: map<string, seq<Field>>)
  {
    ghost predicate Valid()
    {
      (forall k :: k in groups <==> k in keys) && NoDuplicates(keys)
    }
  }

  /** Append `fs` to the list under `key`, creating the list when the key is new. */
  function File(c: Container, key: string, fs: seq<Field>): (d: Container)
    requires c.Valid()
    ensures d.Valid()
    ensures key in d.groups && d.groups[key] == (if key in c.groups then c.groups[key] else []) + fs
    ensures key in c.groups ==> d.keys == c.keys
    ensures key !in c.groups ==> d.keys == c.keys + [key]
    ensures forall k :: k != key && k in c.groups ==> k in d.groups && d.groups[k] == c.groups[k]
  {
    if key in c.groups then Container(c.keys, c.groups[key := c.groups[key] + fs])
    else Container(c.keys + [key], c.groups[key := fs])
  }

  /** Both Add overloads: `fs` filed under the long name, then under the short name. */
  function AddUnder(c: Container, attr: Descriptor, fs: seq<Field>): (d: Container)
    requires c.Valid()
    ensures d.Valid()
  {
    File(File(c, attr.longName, fs), attr.shortName, fs)
  }

  /**
   * After Add(attr, fields) both names are keys, each group ends with the
   * added fields (a new key holds exactly them), and every other key keeps
   * its group.  Equal long and short names receive the fields twice.
   */
  lemma AddFilesUnderBothNames(c: Container, attr: Descriptor, fs: seq<Field>)
    requires c.Valid()
    ensures var d := AddUnder(c, attr, fs);
      && attr.longName in d.keys && attr.shortName in d.keys
      && (forall k :: k != attr.longName && k != attr.shortName && k in c.groups ==>
            k in d.groups && d.groups[k] == c.groups[k])
      && (forall k :: k in d.keys <==> k in c.keys || k == attr.longName || k == attr.shortName)
      && (attr.longName != attr.shortName ==>
            && d.groups[attr.longName] == (if attr.longName in c.groups then c.groups[attr.longName] else []) + fs
            && d.groups[attr.shortName] == (if attr.shortName in c.groups then c.groups[attr.shortName] else []) + fs)
      && (attr.longName == attr.shortName ==>
            d.groups[attr.longName] == (if attr.longName in c.groups then c.groups[attr.longName] else []) + fs + fs)
  {
  }

  // ---------------------------------------------------------------------
  // The flattened view (the Values property)
  // ---------------------------------------------------------------------

  /** Each key's group ordered by position, in key order. */
  function OrderedGroups(c: Container): (gs: seq<seq<Field>>)
    requires c.Valid()
    ensures |gs| == |c.keys|
    ensures forall i :: 0 <= i < |gs| ==> multiset(gs[i]) == multiset(c.groups[c.keys[i]])
  {
    seq(|c.keys|, i requires 0 <= i < |c.keys| => SortByPosition(c.groups[c.keys[i]]))
  }

  /** Aggregate((x, y) => y.Concat(x)) with no seed: the groups concatenated last first. */
  function AggregateReversed(gs: seq<seq<Field>>): (r: seq<Field>)
    requires |gs| > 0
    ensures forall x :: x in r <==> exists i :: 0 <= i < |gs| && x in gs[i]
  {
    if |gs| == 1 then gs[0]
    else
      var init := AggregateReversed(gs[..|gs| - 1]);
      assert forall i :: 0 <= i < |gs| - 1 ==> gs[..|gs| - 1][i] == gs[i];
      gs[|gs| - 1] + init
  }

  /** A field is in some ordered group exactly when it is stored under some key. */
  lemma OrderedGroupsHold(c: Container, f: Field)
    requires c.Valid()
    ensures (exists i :: 0 <= i < |c.keys| && f in OrderedGroups(c)[i])
        <==> exists k :: k in c.groups && f in c.groups[k]
  {
    var gs := OrderedGroups(c);
    if i :| 0 <= i < |c.keys| && f in gs[i] {
      assert f in multiset(gs[i]);
      assert f in c.groups[c.keys[i]];
    }
    if k :| k in c.groups && f in c.groups[k] {
      var i :| 0 <= i < |c.keys| && c.keys[i] == k;
      assert f in multiset(gs[i]);
    }
  }

  /** A field survives aggregation and de-duplication exactly when it is stored under some key. */
  lemma StoredFields(c: Container, f: Field)
    requires c.Valid() && c.keys != []
    ensures f in Distinct(AggregateReversed(OrderedGroups(c))) <==> exists k :: k in c.groups && f in c.groups[k]
  {
    var all := AggregateReversed(OrderedGroups(c));
    var d := Distinct(all);
    OrderedGroupsHold(c, f);
    if f in d {
      var i :| 0 <= i < |d| && d[i] == f;
    }
    if f in all {
      var i :| 0 <= i < |all| && all[i] == f;
    }
  }

  /**
   * Values: every stored field exactly once, although each sits under two
   * keys; over an empty dictionary the unseeded Aggregate throws.
   */
  function Flattened(c: Container): (r: Result<seq<Field>>)
    requires c.Valid()
    ensures r.Failure? <==> c.keys == []
    ensures r.Failure? ==> r.error == EmptySequence
    ensures r.Success? ==> NoDuplicates(r.value)
    ensures r.Success? ==> forall f :: f in r.value <==> exists k :: k in c.groups && f in c.groups[k]
  {
    if c.keys == [] then Failure(EmptySequence)
    else
      var d := Distinct(AggregateReversed(OrderedGroups(c)));
      assert forall f :: f in d <==> exists k :: k in c.groups && f in c.groups[k] by {
        forall f ensures f in d <==> exists k :: k in c.groups && f in c.groups[k] {
          StoredFields(c, f);
        }
      }
      Success(d)
  }

  class ArgumentDictionary {
    var container: Container
    var cachedValues: Option<seq<Field>>

    /** The cache, when present, is exactly what Values would compute now. */
    ghost predicate Valid()
      reads this
    {
      container.Valid() && (cachedValues.Some? ==> Flattened(container) == Success(cachedValues.value))
    }

    constructor ()
      ensures Valid() && container == Container([], map[]) && cachedValues == None
    {
      container := Container([], map[]);
      cachedValues := None;
    }

    /** Values: computed on first read after a mutation, then served from the cache. */
    method Values() returns (r: Result<seq<Field>>)
      requires Valid()
      modifies this`cachedValues
      ensures Valid()
      ensures r == Flattened(container)
      ensures r.Success? ==> cachedValues == Some(r.value)
      ensures r.Failure? ==> cachedValues == old(cachedValues)
    {
      if cachedValues.None? {
        var computed := Flattened(container);
        if computed.Failure? {
          return computed;
        }
        cachedValues := Some(computed.value);
      }
      return Success(cachedValues.value);
    }

    /** The indexer: the group under `key` ordered by position; an unknown key throws. */
    function Lookup(key: string): (r: Result<seq<Field>>)
      reads this
      requires Valid()
      ensures key !in container.keys <==> r == Failure(KeyNotFound(key))
      ensures r.Success? ==> SortedByPosition(r.value) && multiset(r.value) == multiset(container.groups[key])
    {
      if key in container.groups then Success(SortByPosition(container.groups[key]))
      else Failure(KeyNotFound(key))
    }

    /** ContainsKey(string). */
    function ContainsKey(key: string): (r: bool)
      reads this
      requires Valid()
      ensures r <==> key in container.keys
    {
      key in container.groups
    }

    /** ContainsKey(IArgument): true when either of the argument's names is a key. */
    function ContainsArgument(longName: string, shortName: string): (r: bool)
      reads this
      requires Valid()
      ensures r <==> longName in container.keys || shortName in container.keys
    {
      ContainsKey(longName) || ContainsKey(shortName)
    }

    /** Add(attr, field): file one field under both names and drop the cache. */
    method Add(attr: Descriptor, field: Field)
      requires Valid()
      modifies this
      ensures Valid()
      ensures container == AddUnder(old(container), attr, [field])
      ensures cachedValues == None
    {
      AddRange(attr, [field]);
    }

    /** Add(attr, fields): file every field, in order, under both names and drop the cache. */
    method AddRange(attr: Descriptor, fields: seq<Field>)
      requires Valid()
      modifies this
      ensures Valid()
      ensures container == AddUnder(old(container), attr, fields)
      ensures cachedValues == None
    {
      container := File(container, attr.longName, fields);
      container := File(container, attr.shortName, fields);
      cachedValues := None;
    }
  }
}
