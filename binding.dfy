/**
 * What Context.Invoke does, as a function of its inputs: the once-only
 * guard, the manual-name collision check, the default-seeding pass, the
 * per-argument rules over the root children of the parsed tree, and the
 * required-argument check.  The result lists the writes performed, in
 * order, up to the first failure; Targets.ApplyAll turns them into each
 * instance's new field values.
 */
module Binding {
  import opened Common
  import opened Sequences
  import opened TreeNodes
  import opened Registry
  import opened Manual
  import opened Targets
  import opened Parsing

  /** IArgument: a field descriptor or a manual argument. */
  datatype Argument = Attribute(attr: Descriptor) | ManualArg(manual: ManualArgument)

  function LongName(a: Argument): string
  {
    match a
    case Attribute(d) => d.longName
    case ManualArg(m) => m.longName
  }

  function ShortName(a: Argument): string
  {
    match a
    case Attribute(d) => d.shortName
    case ManualArg(m) => m.shortName
  }

  /** Only descriptors can be required: ManualArgument has no Required member. */
  predicate Required(a: Argument)
  {
    a.Attribute? && a.attr.required
  }

  /** The registered instances' declared fields, and the value conversion. */
  datatype Env = Env(declared: seq<set<FieldId>>, convert: Converter)

  predicate DeclaredSomewhere(env: Env, field: FieldId)
  {
    exists i :: 0 <= i < |env.declared| && field in env.declared[i]
  }

  /** Some instance declares the field and the string does not convert to its type. */
  predicate Rejected(env: Env, raw: string, field: FieldId)
  {
    DeclaredSomewhere(env, field) && env.convert(raw, field).None?
  }

  /** The state of a pass: the writes so far, the list of handled arguments, and the failure that stopped it. */
  datatype Progress = Progress(written: seq<Assignment>, handled: seq<Argument>, failure: Option<Error>)

  /**
   * SetInstanceFieldValue(raw, field, instances): the conversion depends only
   * on the string and the field, so it fails on the first declaring instance
   * or on none; a failure stops the pass before anything is written.
   */
  function Write(p: Progress, raw: string, field: FieldId, env: Env): Progress
  {
    if p.failure.Some? then p
    else if Rejected(env, raw, field) then
      p.(failure := Some(InvalidValueFormat(raw)))
    else p.(written := p.written + [Assignment(raw, field)])
  }

  /** userSupplied.Add(argument). */
  function Claim(p: Progress, a: Argument): Progress
  {
    if p.failure.Some? then p else p.(handled := p.handled + [a])
  }

  /** SetInstanceFieldValues(fields, instances): every field's default, in order. */
  function Seed(p: Progress, fields: seq<Field>, env: Env): Progress
  {
    if fields == [] then p
    else
      var last := fields[|fields| - 1];
      Write(Seed(p, fields[..|fields| - 1], env), last.attr.defaultValue, last.id, env)
  }

  /** The first `k` values of a node written to the first `k` fields of its group, each then handled. */
  function Zip(p: Progress, group: seq<Field>, values: seq<string>, k: nat, env: Env): Progress
    requires k <= |group| && k <= |values|
  {
    if k == 0 then p
    else
      var q := Zip(p, group, values, k - 1, env);
      Claim(Write(q, values[k - 1], group[k - 1].id, env), Attribute(group[k - 1].attr))
  }

  /** Some handled argument goes by `name`, long or short. */
  predicate Claimed(handled: seq<Argument>, name: string)
  {
    exists i :: 0 <= i < |handled| && (name == LongName(handled[i]) || name == ShortName(handled[i]))
  }

  /**
   * One root child: skipped when a handled argument already goes by its
   * name; otherwise a lone flag without values is set to "True", a group
   * as large as the value list takes the values in position order, and
   * anything else is malformed or unrecognized.
   */
  function ResolveNode(p: Progress, node: Node<string>, c: Container, env: Env): Progress
    requires c.Valid()
  {
    if p.failure.Some? || Claimed(p.handled, node.value) then p
    else if node.value !in c.groups then p.(failure := Some(Unrecognized(node.value)))
    else
      var group := SortByPosition(c.groups[node.value]);
      if |group| == 1 && group[0].attr.position == -1 && |node.children| == 0 then
        Claim(Write(p, "True", group[0].id, env), Attribute(group[0].attr))
      else if |group| == |node.children| then
        Zip(p, group, Values(node.children), |group|, env)
      else p.(failure := Some(Malformed(node.value)))
  }

  /** The root children in order, each seeing the handled list the earlier ones left. */
  function ResolveAll(p: Progress, nodes: seq<Node<string>>, c: Container, env: Env): Progress
    requires c.Valid()
  {
    if nodes == [] then p
    else ResolveNode(ResolveAll(p, nodes[..|nodes| - 1], c, env), nodes[|nodes| - 1], c, env)
  }

  /** The names in `names` that are registry keys, in order. */
  function InUse(names: seq<string>, c: Container): (r: seq<string>)
    ensures forall i :: 0 <= i < |r| ==> r[i] in c.groups && r[i] in names
    ensures forall i :: 0 <= i < |names| && names[i] in c.groups ==> names[i] in r
    ensures r == [] <==> forall i :: 0 <= i < |names| ==> names[i] !in c.groups
  {
    if names == [] then []
    else
      var init := InUse(names[..|names| - 1], c);
      var last := names[|names| - 1];
      assert forall i :: 0 <= i < |names| - 1 ==> names[..|names| - 1][i] == names[i];
      if last in c.groups then init + [last] else init
  }

  function LongNames(ms: seq<ManualArgument>): seq<string>
  {
    seq(|ms|, i requires 0 <= i < |ms| => ms[i].longName)
  }

  function ShortNames(ms: seq<ManualArgument>): seq<string>
  {
    seq(|ms|, i requires 0 <= i < |ms| => ms[i].shortName)
  }

  /** The manual arguments' long names already in use, then their short names already in use. */
  function Collisions(manual: seq<ManualArgument>, c: Container): (r: seq<string>)
    ensures r == [] <==> forall i :: 0 <= i < |manual| ==>
                           manual[i].longName !in c.groups && manual[i].shortName !in c.groups
  {
    var longs := InUse(LongNames(manual), c);
    var shorts := InUse(ShortNames(manual), c);
    assert forall i :: 0 <= i < |manual| ==> LongNames(manual)[i] == manual[i].longName;
    assert forall i :: 0 <= i < |manual| ==> ShortNames(manual)[i] == manual[i].shortName;
    longs + shorts
  }

  /** Every registered descriptor, then every manual argument. */
  function AllArguments(fields: seq<Field>, manual: seq<ManualArgument>): (r: seq<Argument>)
    ensures |r| == |fields| + |manual|
    ensures forall i :: 0 <= i < |fields| ==> r[i] == Attribute(fields[i].attr)
    ensures forall i :: 0 <= i < |manual| ==> r[|fields| + i] == ManualArg(manual[i])
  {
    seq(|fields|, i requires 0 <= i < |fields| => Attribute(fields[i].attr))
      + seq(|manual|, i requires 0 <= i < |manual| => ManualArg(manual[i]))
  }

  /** How the missing-arguments message names an argument: "short (long)". */
  function Entry(a: Argument): string
  {
    ShortName(a) + " (" + LongName(a) + ")"
  }

  /** "short (long)" for every required argument, in order. */
  function MissingEntries(remaining: seq<Argument>): (r: seq<string>)
    ensures r == [] <==> forall i :: 0 <= i < |remaining| ==> !Required(remaining[i])
  {
    if remaining == [] then []
    else
      var init := MissingEntries(remaining[..|remaining| - 1]);
      var last := remaining[|remaining| - 1];
      assert forall i :: 0 <= i < |remaining| - 1 ==> remaining[..|remaining| - 1][i] == remaining[i];
      if Required(last) then init + [Entry(last)] else init
  }

  /** One argument contributes its entry exactly when it is required. */
  lemma MissingEntriesOne(a: Argument)
    ensures MissingEntries([a]) == if Required(a) then [Entry(a)] else []
  {
    assert [a][..0] == [];
  }

  /** The entries of a concatenation are the entries of each part, in order. */
  lemma {:induction false} MissingEntriesAppend(a: seq<Argument>, b: seq<Argument>)
    ensures MissingEntries(a + b) == MissingEntries(a) + MissingEntries(b)
    decreases |b|
  {
    if b == [] {
      assert a + b == a;
    } else {
      var front := b[..|b| - 1];
      var last := b[|b| - 1];
      MissingEntriesAppend(a, front);
      assert (a + b)[..|a + b| - 1] == a + front;
      assert (a + b)[|a + b| - 1] == last;
      assert MissingEntries(b) == MissingEntries(front) + (if Required(last) then [Entry(last)] else []);
      ConcatAssociative(MissingEntries(a), MissingEntries(front), [Entry(last)]);
    }
  }

  /** The outcome of Invoke, the writes it performed, and what it counted as handled. */
  datatype Run = Run(outcome: Outcome, written: seq<Assignment>, handled: seq<Argument>)

  /** Stop with the failure a pass met, keeping the writes made before it. */
  function Stopped(p: Progress): Run
    requires p.failure.Some?
  {
    Run(Fail(p.failure.value), p.written, p.handled)
  }

  /** The seeding pass over the flattened registry. */
  function Seeded(c: Container, env: Env): Progress
    requires c.Valid() && c.keys != []
  {
    Seed(Progress([], [], None), Flattened(c).value, env)
  }

  /** The manual group's Invoke result, as handled arguments. */
  function ManualArgs(group: seq<ManualArgument>): (r: seq<Argument>)
    ensures |r| == |group| && forall i :: 0 <= i < |group| ==> r[i] == ManualArg(group[i])
  {
    seq(|group|, i requires 0 <= i < |group| => ManualArg(group[i]))
  }

  /** The argument loop, starting from the seeded state with the manual group's handled arguments. */
  function Resolved(c: Container, roots: seq<Node<string>>, group: seq<ManualArgument>, env: Env): Progress
    requires c.Valid() && c.keys != []
  {
    ResolveAll(Seeded(c, env).(handled := ManualArgs(group)), roots, c, env)
  }

  /**
   * Invoke, for the registry `c`, the root children `roots` of the parsed
   * tree and what the manual group's own Invoke returned.  A null manual
   * group (Initialize was never called) fails at the collision query.
   */
  function Bind(invoked: bool, manual: Option<seq<ManualArgument>>, c: Container, roots: seq<Node<string>>,
                groupResult: Result<seq<ManualArgument>>, env: Env): (r: Run)
    requires c.Valid()
    ensures invoked ==> r.outcome == Fail(DoubleInvocation) && r.written == []
    ensures !invoked && manual.None? ==> r.outcome == Fail(NullArgument("source")) && r.written == []
    ensures !invoked && manual.Some? && Collisions(manual.value, c) != [] ==>
              r.outcome == Fail(NameCollision(Collisions(manual.value, c))) && r.written == []
    ensures r.outcome.Pass? ==> !invoked && manual.Some? && Collisions(manual.value, c) == [] && c.keys != []
  {
    if invoked then Run(Fail(DoubleInvocation), [], [])
    else if manual.None? then Run(Fail(NullArgument("source")), [], [])
    else if Collisions(manual.value, c) != [] then Run(Fail(NameCollision(Collisions(manual.value, c))), [], [])
    else Bound(manual.value, c, roots, groupResult, env)
  }

  /** Invoke past its guards: seeding, the manual group, the argument loop and the required check. */
  function Bound(manual: seq<ManualArgument>, c: Container, roots: seq<Node<string>>,
                 groupResult: Result<seq<ManualArgument>>, env: Env): (r: Run)
    requires c.Valid()
    ensures c.keys == [] ==> r.outcome == Fail(EmptySequence) && r.written == []
    ensures r.outcome.Pass? ==> c.keys != [] && groupResult.Success?
  {
    if c.keys == [] then Run(Fail(EmptySequence), [], [])
    else if Seeded(c, env).failure.Some? then Stopped(Seeded(c, env))
    else if groupResult.Failure? then Run(Fail(groupResult.error), Seeded(c, env).written, [])
    else Checked(Flattened(c).value, manual, Resolved(c, roots, groupResult.value, env))
  }

  /** After the argument loop: its failure, or the required arguments left unhandled, or success. */
  function Checked(fields: seq<Field>, manual: seq<ManualArgument>, p: Progress): (r: Run)
    ensures r.written == p.written
    ensures r.outcome.Pass? <==> p.failure.None? && MissingEntries(Except(AllArguments(fields, manual), p.handled)) == []
    ensures p.failure.Some? ==> r.outcome == Fail(p.failure.value)
    ensures var missing := MissingEntries(Except(AllArguments(fields, manual), p.handled));
      p.failure.None? && missing != [] ==> r.outcome == Fail(MissingRequired(missing))
  {
    if p.failure.Some? then Stopped(p)
    else
      var missing := MissingEntries(Except(AllArguments(fields, manual), p.handled));
      if missing != [] then Run(Fail(MissingRequired(missing)), p.written, p.handled)
      else Run(Pass, p.written, p.handled)
  }

  // ---------------------------------------------------------------------
  // Properties of the pass
  // ---------------------------------------------------------------------

  /** Once a pass has failed, seeding writes nothing more. */
  lemma {:induction false} SeedAbsorbs(p: Progress, fields: seq<Field>, env: Env)
    requires p.failure.Some?
    ensures Seed(p, fields, env) == p
  {
    if fields != [] {
      SeedAbsorbs(p, fields[..|fields| - 1], env);
    }
  }

  /** Once a pass has failed, the remaining root children change nothing. */
  lemma {:induction false} ResolveAllAbsorbs(p: Progress, nodes: seq<Node<string>>, c: Container, env: Env)
    requires c.Valid() && p.failure.Some?
    ensures ResolveAll(p, nodes, c, env) == p
  {
    if nodes != [] {
      ResolveAllAbsorbs(p, nodes[..|nodes| - 1], c, env);
    }
  }

  /** When seeding fails on a prefix of the fields, the rest of the fields change nothing. */
  lemma {:induction false} SeedStops(p: Progress, fields: seq<Field>, k: nat, env: Env)
    requires k <= |fields| && Seed(p, fields[..k], env).failure.Some?
    ensures Seed(p, fields, env) == Seed(p, fields[..k], env)
    decreases |fields| - k
  {
    if k < |fields| {
      assert fields[..k + 1][..k] == fields[..k];
      SeedStops(p, fields, k + 1, env);
    } else {
      assert fields[..k] == fields;
    }
  }

  /** When a prefix of the root children fails, the remaining ones change nothing. */
  lemma {:induction false} ResolveAllStops(p: Progress, nodes: seq<Node<string>>, k: nat, c: Container, env: Env)
    requires c.Valid() && k <= |nodes| && ResolveAll(p, nodes[..k], c, env).failure.Some?
    ensures ResolveAll(p, nodes, c, env) == ResolveAll(p, nodes[..k], c, env)
    decreases |nodes| - k
  {
    if k < |nodes| {
      assert nodes[..k + 1][..k] == nodes[..k];
      ResolveAllStops(p, nodes, k + 1, c, env);
    } else {
      assert nodes[..k] == nodes;
    }
  }

  /** When the value loop fails at some value, the remaining values change nothing. */
  lemma {:induction false} ZipStops(p: Progress, group: seq<Field>, values: seq<string>, k: nat, n: nat, env: Env)
    requires k <= n <= |group| && n <= |values| && Zip(p, group, values, k, env).failure.Some?
    ensures Zip(p, group, values, n, env) == Zip(p, group, values, k, env)
    decreases n - k
  {
    if k < n {
      ZipStops(p, group, values, k, n - 1, env);
    }
  }

  /** The writes of the seeding pass: each field's default value, in order. */
  function Defaults(fields: seq<Field>): (r: seq<Assignment>)
    ensures |r| == |fields|
    ensures forall i :: 0 <= i < |fields| ==> r[i].raw == fields[i].attr.defaultValue && r[i].field == fields[i].id
  {
    seq(|fields|, i requires 0 <= i < |fields| => Assignment(fields[i].attr.defaultValue, fields[i].id))
  }

  /** Seeding succeeds exactly when no default is rejected, and then writes every default in order. */
  lemma {:induction false} SeedSucceeds(p: Progress, fields: seq<Field>, env: Env)
    requires p.failure.None?
    ensures var q := Seed(p, fields, env);
      && q.handled == p.handled
      && (q.failure.None? <==> forall i :: 0 <= i < |fields| ==> !Rejected(env, fields[i].attr.defaultValue, fields[i].id))
      && (q.failure.None? ==> q.written == p.written + Defaults(fields))
  {
    if fields != [] {
      var n := |fields| - 1;
      var init := fields[..n];
      SeedSucceeds(p, init, env);
      assert forall i :: 0 <= i < n ==> init[i] == fields[i];
      if Seed(p, init, env).failure.None? && !Rejected(env, fields[n].attr.defaultValue, fields[n].id) {
        assert Defaults(fields) == Defaults(init) + [Assignment(fields[n].attr.defaultValue, fields[n].id)];
      }
    }
  }

  /** A failed seeding stopped at the first rejected default, `i`, having written the ones before it. */
  lemma {:induction false} SeedFailsAtFirst(p: Progress, fields: seq<Field>, env: Env) returns (i: nat)
    requires p.failure.None? && Seed(p, fields, env).failure.Some?
    ensures var q := Seed(p, fields, env);
      && i < |fields| && Rejected(env, fields[i].attr.defaultValue, fields[i].id)
      && (forall j :: 0 <= j < i ==> !Rejected(env, fields[j].attr.defaultValue, fields[j].id))
      && q.failure == Some(InvalidValueFormat(fields[i].attr.defaultValue))
      && q.written == p.written + Defaults(fields[..i])
  {
    var n := |fields| - 1;
    var init := fields[..n];
    var q0 := Seed(p, init, env);
    assert forall j :: 0 <= j < n ==> init[j] == fields[j];
    if q0.failure.Some? {
      i := SeedFailsAtFirst(p, init, env);
      assert Seed(p, fields, env) == q0;
      assert init[..i] == fields[..i];
    } else {
      SeedSucceeds(p, init, env);
      i := n;
      assert init == fields[..n];
    }
  }

  /**
   * Seeding succeeds exactly when no default is rejected, and then writes
   * every default in order; otherwise it stops at the first rejected
   * default, having written the ones before it.
   */
  lemma SeedWritesDefaults(p: Progress, fields: seq<Field>, env: Env)
    requires p.failure.None?
    ensures var q := Seed(p, fields, env);
      && q.handled == p.handled
      && (q.failure.None? <==> forall i :: 0 <= i < |fields| ==> !Rejected(env, fields[i].attr.defaultValue, fields[i].id))
      && (q.failure.None? ==> q.written == p.written + Defaults(fields))
      && (q.failure.Some? ==> exists i :: 0 <= i < |fields| && Rejected(env, fields[i].attr.defaultValue, fields[i].id)
                               && (forall j :: 0 <= j < i ==> !Rejected(env, fields[j].attr.defaultValue, fields[j].id))
                               && q.failure == Some(InvalidValueFormat(fields[i].attr.defaultValue))
                               && q.written == p.written + Defaults(fields[..i]))
  {
    SeedSucceeds(p, fields, env);
    if Seed(p, fields, env).failure.Some? {
      var i := SeedFailsAtFirst(p, fields, env);
    }
  }

  /** The i-th value paired with the i-th field, for the first `k`. */
  function Pairs(group: seq<Field>, values: seq<string>, k: nat): (r: seq<Assignment>)
    requires k <= |group| && k <= |values|
    ensures |r| == k
    ensures forall i :: 0 <= i < k ==> r[i].raw == values[i] && r[i].field == group[i].id
  {
    seq(k, i requires 0 <= i < k => Assignment(values[i], group[i].id))
  }

  /** The first `k` fields' descriptors, as handled arguments. */
  function Claims(group: seq<Field>, k: nat): (r: seq<Argument>)
    requires k <= |group|
    ensures |r| == k
    ensures forall i :: 0 <= i < k ==> r[i] == Attribute(group[i].attr)
  {
    seq(k, i requires 0 <= i < k => Attribute(group[i].attr))
  }

  /**
   * The value loop: when no value is rejected, the i-th field of the group
   * receives the i-th value and every descriptor is handled, in order; the
   * loop fails exactly when some value is rejected.
   */
  lemma {:induction false} ZipWrites(p: Progress, group: seq<Field>, values: seq<string>, k: nat, env: Env)
    requires k <= |group| && k <= |values| && p.failure.None?
    ensures var q := Zip(p, group, values, k, env);
      && (q.failure.None? <==> forall i :: 0 <= i < k ==> !Rejected(env, values[i], group[i].id))
      && (q.failure.None? ==> q.written == p.written + Pairs(group, values, k)
                              && q.handled == p.handled + Claims(group, k))
      && (q.failure.Some? ==> exists i :: 0 <= i < k && q.failure == Some(InvalidValueFormat(values[i])))
  {
    if k > 0 {
      ZipWrites(p, group, values, k - 1, env);
      var q0 := Zip(p, group, values, k - 1, env);
      if q0.failure.None? && !Rejected(env, values[k - 1], group[k - 1].id) {
        assert Pairs(group, values, k) == Pairs(group, values, k - 1) + [Assignment(values[k - 1], group[k - 1].id)];
        assert Claims(group, k) == Claims(group, k - 1) + [Attribute(group[k - 1].attr)];
      }
    }
  }

  /** Claimed names stay claimed as the handled list grows. */
  lemma ClaimedGrows(a: seq<Argument>, b: seq<Argument>, name: string)
    requires a <= b && Claimed(a, name)
    ensures Claimed(b, name)
  {
    var i :| 0 <= i < |a| && (name == LongName(a[i]) || name == ShortName(a[i]));
    assert b[i] == a[i];
  }

  /** The value loop only appends, to the writes and to the handled list. */
  lemma {:induction false} ZipGrows(p: Progress, group: seq<Field>, values: seq<string>, k: nat, env: Env)
    requires k <= |group| && k <= |values|
    ensures p.written <= Zip(p, group, values, k, env).written
    ensures p.handled <= Zip(p, group, values, k, env).handled
  {
    if k > 0 {
      ZipGrows(p, group, values, k - 1, env);
    }
  }

  /** One root child only appends, to the writes and to the handled list. */
  lemma ResolveNodeGrows(p: Progress, node: Node<string>, c: Container, env: Env)
    requires c.Valid()
    ensures p.written <= ResolveNode(p, node, c, env).written
    ensures p.handled <= ResolveNode(p, node, c, env).handled
  {
    if p.failure.None? && !Claimed(p.handled, node.value) && node.value in c.groups {
      var group := SortByPosition(c.groups[node.value]);
      if |group| == |node.children| {
        ZipGrows(p, group, Values(node.children), |group|, env);
      }
    }
  }

  /**
   * When every root child has been resolved without failure, each of them
   * names a registered key or an argument handled by then; the handled
   * list and the writes only grow.
   */
  lemma {:induction false} ResolveAllRecognized(p: Progress, nodes: seq<Node<string>>, c: Container, env: Env)
    requires c.Valid()
    ensures var q := ResolveAll(p, nodes, c, env);
      && p.written <= q.written && p.handled <= q.handled
      && (q.failure.None? ==> forall i :: 0 <= i < |nodes| ==> nodes[i].value in c.groups || Claimed(q.handled, nodes[i].value))
  {
    if nodes != [] {
      var n := |nodes| - 1;
      ResolveAllRecognized(p, nodes[..n], c, env);
      var q0 := ResolveAll(p, nodes[..n], c, env);
      var q := ResolveNode(q0, nodes[n], c, env);
      ResolveNodeGrows(q0, nodes[n], c, env);
      if q.failure.None? {
        assert q0.failure.None?;
        forall i | 0 <= i < |nodes|
          ensures nodes[i].value in c.groups || Claimed(q.handled, nodes[i].value)
        {
          if i < n {
            assert nodes[..n][i] == nodes[i];
            if nodes[i].value !in c.groups {
              ClaimedGrows(q0.handled, q.handled, nodes[i].value);
            }
          }
        }
      }
    }
  }

  /** Every descriptor in `group` is filed under one of its own names, `name`. */
  predicate FiledUnder(group: seq<Field>, name: string)
  {
    forall j :: 0 <= j < |group| ==> group[j].attr.longName == name || group[j].attr.shortName == name
  }

  /**
   * The root children are filtered lazily against the growing handled
   * list: once a name has been resolved to a non-empty group, a later root
   * child with the same name is skipped.
   */
  lemma RepeatedNameSkipped(p: Progress, n: Node<string>, m: Node<string>, c: Container, env: Env)
    requires c.Valid() && n.value in c.groups && |c.groups[n.value]| > 0 && FiledUnder(c.groups[n.value], n.value)
    requires m.value == n.value
    requires ResolveAll(p, [n], c, env).failure.None?
    ensures ResolveAll(p, [n, m], c, env) == ResolveAll(p, [n], c, env)
  {
    assert [n, m][..1] == [n];
    assert [n][..0] == [];
    var q := ResolveNode(p, n, c, env);
    if !Claimed(p.handled, n.value) {
      var group := SortByPosition(c.groups[n.value]);
      assert group[0] in multiset(c.groups[n.value]);
      var j :| 0 <= j < |c.groups[n.value]| && c.groups[n.value][j] == group[0];
      if |group| == 1 && group[0].attr.position == -1 && |n.children| == 0 {
        assert q.handled[|q.handled| - 1] == Attribute(group[0].attr);
      } else {
        ZipWrites(p, group, Values(n.children), |group|, env);
        assert q.handled[|p.handled|] == Attribute(group[0].attr);
      }
      assert Claimed(q.handled, n.value);
    }
  }

  /**
   * The rules for one root child no handled argument goes by, in the order
   * they are tried: an unknown name is unrecognized; a lone flag descriptor
   * without values receives "True"; a group exactly as large as the value
   * list gives its i-th descriptor, by ascending position, the i-th value;
   * anything else is malformed.  A value the conversion rejects stops the
   * pass instead.
   */
  lemma ResolveNodeRules(p: Progress, node: Node<string>, c: Container, env: Env)
    requires c.Valid() && p.failure.None? && !Claimed(p.handled, node.value)
    ensures var q := ResolveNode(p, node, c, env);
      && (node.value !in c.groups ==> q == p.(failure := Some(Unrecognized(node.value))))
      && (node.value in c.groups ==>
            var group := SortByPosition(c.groups[node.value]);
            var values := Values(node.children);
            var flag := |group| == 1 && group[0].attr.position == -1 && |node.children| == 0;
            && (flag && !Rejected(env, "True", group[0].id) ==>
                  q == Progress(p.written + [Assignment("True", group[0].id)], p.handled + [Attribute(group[0].attr)], None))
            && (flag && Rejected(env, "True", group[0].id) ==> q.failure == Some(InvalidValueFormat("True")))
            && (!flag && |group| == |values| ==>
                  && (q.failure.None? <==> forall i :: 0 <= i < |group| ==> !Rejected(env, values[i], group[i].id))
                  && (q.failure.None? ==> q.written == p.written + Pairs(group, values, |group|)
                                          && q.handled == p.handled + Claims(group, |group|))
                  && (q.failure.Some? ==> exists i :: 0 <= i < |values| && q.failure == Some(InvalidValueFormat(values[i]))))
            && (!flag && |group| != |values| ==> q == p.(failure := Some(Malformed(node.value)))))
  {
    if node.value in c.groups {
      var group := SortByPosition(c.groups[node.value]);
      var values := Values(node.children);
      if |group| == |values| {
        ZipWrites(p, group, values, |group|, env);
      }
    }
  }

  /** No required argument is left over once the handled ones are set aside: each required field's descriptor was handled. */
  lemma NoneMissing(fields: seq<Field>, manual: seq<ManualArgument>, handled: seq<Argument>)
    requires MissingEntries(Except(AllArguments(fields, manual), handled)) == []
    ensures forall i :: 0 <= i < |fields| && fields[i].attr.required ==> Attribute(fields[i].attr) in handled
  {
  }

  /** A successful seeding pass wrote every default, in order, from an empty start. */
  lemma SeededWritesDefaults(c: Container, env: Env)
    requires c.Valid() && c.keys != [] && Seeded(c, env).failure.None?
    ensures Defaults(Flattened(c).value) <= Seeded(c, env).written
  {
    var fields := Flattened(c).value;
    SeedWritesDefaults(Progress([], [], None), fields, env);
    assert [] + Defaults(fields) == Defaults(fields);
  }

  /** The argument loop keeps the seeded writes and, when it succeeds, recognized every root child. */
  lemma ResolvedRecognized(c: Container, roots: seq<Node<string>>, group: seq<ManualArgument>, env: Env)
    requires c.Valid() && c.keys != []
    ensures var p := Resolved(c, roots, group, env);
      && Seeded(c, env).written <= p.written
      && (p.failure.None? ==> forall i :: 0 <= i < |roots| ==> roots[i].value in c.groups || Claimed(p.handled, roots[i].value))
  {
    ResolveAllRecognized(Seeded(c, env).(handled := ManualArgs(group)), roots, c, env);
  }

  /** Every descriptor of the registry is among its flattened fields, so the required ones were handled. */
  lemma RequiredHandled(c: Container, handled: seq<Argument>)
    requires c.Valid() && c.keys != []
    requires var fields := Flattened(c).value;
      forall i :: 0 <= i < |fields| && fields[i].attr.required ==> Attribute(fields[i].attr) in handled
    ensures forall k, j :: k in c.groups && 0 <= j < |c.groups[k]| && c.groups[k][j].attr.required ==>
              Attribute(c.groups[k][j].attr) in handled
  {
    var fields := Flattened(c).value;
    forall k, j | k in c.groups && 0 <= j < |c.groups[k]| && c.groups[k][j].attr.required
      ensures Attribute(c.groups[k][j].attr) in handled
    {
      assert c.groups[k][j] in c.groups[k];
      assert c.groups[k][j] in fields;
    }
  }

  /**
   * A successful Invoke ran once, after Initialize, with no manual name in
   * use by a descriptor and a non-empty registry; it wrote every default
   * before any parsed value; every root child named a registered key or an
   * argument handled by then; and every required descriptor was handled.
   */
  lemma BindPass(invoked: bool, manual: Option<seq<ManualArgument>>, c: Container, roots: seq<Node<string>>,
                 groupResult: Result<seq<ManualArgument>>, env: Env)
    requires c.Valid() && Bind(invoked, manual, c, roots, groupResult, env).outcome == Pass
    ensures !invoked && manual.Some? && Collisions(manual.value, c) == [] && c.keys != [] && groupResult.Success?
    ensures var r := Bind(invoked, manual, c, roots, groupResult, env);
      && Defaults(Flattened(c).value) <= r.written
      && (forall i :: 0 <= i < |roots| ==> roots[i].value in c.groups || Claimed(r.handled, roots[i].value))
      && (forall k, j :: k in c.groups && 0 <= j < |c.groups[k]| && c.groups[k][j].attr.required ==>
            Attribute(c.groups[k][j].attr) in r.handled)
  {
    var fields := Flattened(c).value;
    var p := Resolved(c, roots, groupResult.value, env);
    assert Bind(invoked, manual, c, roots, groupResult, env) == Checked(fields, manual.value, p);
    SeededWritesDefaults(c, env);
    ResolvedRecognized(c, roots, groupResult.value, env);
    NoneMissing(fields, manual.value, p.handled);
    RequiredHandled(c, p.handled);
  }
}
