/**
 * Context: the executing context.  It holds the descriptor registry, the
 * registered instances, the manual-argument group and the parsed argument
 * tree; Initialize parses the command line, and Invoke writes every
 * instance's fields once, as Binding.Bind describes.
 */
module Contexts {
  import opened Common
  import opened Sequences
  import opened StringUtil
  import opened TreeNodes
  import opened Trees
  import opened Registry
  import opened Manual
  import opened Parsing
  import opened Targets
  import opened Binding

  /** The instances as the binding pass sees them: which fields each declares. */
  function EnvOf(source: seq<Target>, convert: Converter): (env: Env)
    ensures |env.declared| == |source|
    ensures forall i :: 0 <= i < |source| ==> env.declared[i] == source[i].declared
    ensures env.convert == convert
  {
    Env(seq(|source|, i requires 0 <= i < |source| => source[i].declared), convert)
  }

  /**
   * SetInstanceFieldValue(value, field, instanceSource): every instance
   * declaring the field takes the converted value.  A string the field's
   * type refuses throws at the first declaring instance, before any write.
   */
  method SetInstanceFieldValue(raw: string, field: FieldId, source: seq<Target>, convert: Converter)
    returns (r: Outcome)
    modifies set t | t in source
    ensures r == (if Rejected(EnvOf(source, convert), raw, field) then Fail(InvalidValueFormat(raw)) else Pass)
    ensures forall t :: t in source ==>
              t.values == (if r.Pass? then Apply(old(t.values), t.declared, Assignment(raw, field), convert)
                           else old(t.values))
  {
    ghost var env := EnvOf(source, convert);
    ghost var a := Assignment(raw, field);
    for i := 0 to |source|
      invariant forall j :: 0 <= j < i && field in source[j].declared ==> convert(raw, field).Some?
      invariant forall t :: t in source ==>
                  t.values == (if t in source[..i] then Apply(old(t.values), t.declared, a, convert) else old(t.values))
    {
      var t := source[i];
      if field in t.declared {
        var v := convert(raw, field);
        if v.None? {
          assert Rejected(env, raw, field) by {
            assert field in env.declared[i];
          }
          return Fail(InvalidValueFormat(raw));
        }
        t.values := t.values[field := v.value];
      }
      assert source[..i + 1] == source[..i] + [t];
    }
    assert !Rejected(env, raw, field) by {
      if DeclaredSomewhere(env, field) {
        var j :| 0 <= j < |env.declared| && field in env.declared[j];
        assert field in source[j].declared;
      }
    }
    assert source[..|source|] == source;
    return Pass;
  }

  /** SetInstanceFieldValues(include, instanceSource): each field's default, in order, as Binding.Seed does. */
  method SetInstanceFieldValues(defaults: seq<Field>, source: seq<Target>, convert: Converter) returns (r: Outcome)
    modifies set t | t in source
    ensures var q := Seed(Progress([], [], None), defaults, EnvOf(source, convert));
      && r == (if q.failure.None? then Pass else Fail(q.failure.value))
      && forall t :: t in source ==> t.values == ApplyAll(old(t.values), t.declared, q.written, convert)
  {
    ghost var env := EnvOf(source, convert);
    ghost var start := Progress([], [], None);
    ghost var p := start;
    for i := 0 to |defaults|
      invariant p == Seed(start, defaults[..i], env) && p.failure.None?
      invariant forall t :: t in source ==> t.values == ApplyAll(old(t.values), t.declared, p.written, convert)
    {
      var f := defaults[i];
      assert defaults[..i + 1][..i] == defaults[..i];
      ghost var before := p.written;
      var o := SetInstanceFieldValue(f.attr.defaultValue, f.id, source, convert);
      p := Write(p, f.attr.defaultValue, f.id, env);
      if o.Fail? {
        SeedStops(start, defaults, i + 1, env);
        return o;
      }
      forall t | t in source
        ensures t.values == ApplyAll(old(t.values), t.declared, p.written, convert)
      {
        ApplyAllAppend(old(t.values), t.declared, before, Assignment(f.attr.defaultValue, f.id), convert);
      }
    }
    assert defaults[..|defaults|] == defaults;
    return Pass;
  }

  /** SetInstanceFieldValues, also naming each instance's values from before the writes. */
  method SeedInstances(defaults: seq<Field>, source: seq<Target>, convert: Converter)
    returns (r: Outcome, ghost base: map<Target, map<FieldId, Value>>)
    modifies set t | t in source
    ensures var q := Seed(Progress([], [], None), defaults, EnvOf(source, convert));
      && r == (if q.failure.None? then Pass else Fail(q.failure.value))
      && forall t :: t in source ==>
           t in base && base[t] == old(t.values) && t.values == ApplyAll(base[t], t.declared, q.written, convert)
  {
    base := map t: Target | t in source :: t.values;
    r := SetInstanceFieldValues(defaults, source, convert);
  }

  // ---------------------------------------------------------------------
  // Parsing the command line into a tree
  // ---------------------------------------------------------------------

  /**
   * The heap tree under `root` has the two levels of `v`: distinct root
   * children with v's values, and leaf grandchildren with v's values, none
   * of them the root or a root child; the root has no parent and every
   * other node's parent is the node it hangs under.
   */
  ghost predicate Shaped(root: TreeNode<string>, v: Node<string>, repr: set<TreeNode<string>>)
    reads repr
  {
    && root in repr && root.value == v.value && |root.children| == |v.children| && root.parent == null
    && (forall j :: 0 <= j < |root.children| ==>
          root.children[j] in repr && root.children[j] != root && root.children[j].parent == root
          && root.children[j].value == v.children[j].value
          && |root.children[j].children| == |v.children[j].children|)
    && (forall j, m :: 0 <= j < m < |root.children| ==> root.children[j] != root.children[m])
    && (forall j, k :: 0 <= j < |root.children| && 0 <= k < |root.children[j].children| ==>
          root.children[j].children[k] in repr && root.children[j].children[k] != root
          && root.children[j].children[k].parent == root.children[j]
          && root.children[j].children[k].value == v.children[j].children[k].value
          && root.children[j].children[k].children == []
          && forall m :: 0 <= m < |root.children| ==> root.children[j].children[k] != root.children[m])
  }

  /** A two-level heap tree whose snapshot has only leaf grandchildren mirrors that snapshot. */
  lemma ShapedMirrors(root: TreeNode<string>, v: Node<string>, repr: set<TreeNode<string>>)
    requires Shaped(root, v, repr) && ShallowTree(v)
    ensures Mirrors(root, v, repr)
  {
    forall j | 0 <= j < |v.children|
      ensures Mirrors(root.children[j], v.children[j], repr)
    {
      var n := root.children[j];
      forall k | 0 <= k < |v.children[j].children|
        ensures Mirrors(n.children[k], v.children[j].children[k], repr)
      {
        assert v.children[j].children[k].children == [];
      }
    }
  }

  /** root.Add(new TreeNode(value)): a fresh leaf becomes the last root child. */
  method AddToRoot(root: TreeNode<string>, value: string, ghost v: Node<string>, ghost repr: set<TreeNode<string>>)
    returns (newNode: TreeNode<string>)
    requires Shaped(root, v, repr)
    modifies root`children
    ensures fresh(newNode)
    ensures Shaped(root, Node(v.value, v.children + [Node(value, [])]), repr + {newNode})
    ensures root.children == old(root.children) + [newNode]
  {
    newNode := new TreeNode(value, null);
    var _ := root.Add(newNode);
  }

  /** current.Add(new TreeNode(value)), with `current` the last root child: a fresh leaf becomes its last child. */
  method AddToLast(root: TreeNode<string>, current: TreeNode<string>, value: string,
                   ghost v: Node<string>, ghost repr: set<TreeNode<string>>)
    returns (newNode: TreeNode<string>)
    requires Shaped(root, v, repr)
    requires |root.children| > 0 && current == root.children[|root.children| - 1]
    modifies current`children
    ensures fresh(newNode)
    ensures Shaped(root, Node(v.value, v.children[..|v.children| - 1]
                                     + [WithLeaf(v.children[|v.children| - 1], value)]), repr + {newNode})
    ensures root.children == old(root.children)
  {
    newNode := new TreeNode(value, null);
    var _ := current.Add(newNode);
  }

  /** Where the next undelimited token goes: the last root child once a delimited token has been read, else the root. */
  ghost predicate AttachPoint(root: TreeNode<string>, current: TreeNode<string>, chop: string -> string, tokens: seq<string>)
    reads root
  {
    && (current == root || (|root.children| > 0 && current == root.children[|root.children| - 1]))
    && (current != root <==> Attached(chop, tokens))
  }

  /** The state of the ParseArgs loop after `tokens`: the heap tree has the shape of `v` and `current` is the attach point. */
  ghost predicate Building(root: TreeNode<string>, current: TreeNode<string>, v: Node<string>,
                           repr: set<TreeNode<string>>, chop: string -> string, tokens: seq<string>)
    reads repr
  {
    Shaped(root, v, repr) && current in repr && AttachPoint(root, current, chop, tokens)
  }

  /** After a delimited token the snapshot has one more root child, named by the chopped token. */
  lemma ParseStepDelimited(rootValue: string, chop: string -> string, prefix: seq<string>, token: string)
    requires chop(token) != token
    ensures var v := ParseTree(rootValue, chop, prefix);
      && ParseTree(rootValue, chop, prefix + [token]) == Node(v.value, v.children + [Node(chop(token), [])])
      && Attached(chop, prefix + [token])
  {
    ParseAppend(rootValue, chop, prefix, token);
  }

  /** After any other token the snapshot has one more leaf under the attach point, which stays put. */
  lemma ParseStepValue(rootValue: string, chop: string -> string, prefix: seq<string>, token: string)
    requires chop(token) == token
    ensures var v := ParseTree(rootValue, chop, prefix);
      var u := ParseTree(rootValue, chop, prefix + [token]);
      && (Attached(chop, prefix + [token]) <==> Attached(chop, prefix))
      && (!Attached(chop, prefix) ==> u == Node(v.value, v.children + [Node(token, [])]))
      && (Attached(chop, prefix) ==>
            |v.children| > 0 && u == Node(v.value, v.children[..|v.children| - 1] + [WithLeaf(v.children[|v.children| - 1], token)]))
  {
    ParseAppend(rootValue, chop, prefix, token);
  }

  /** A delimited token: its chopped name becomes the last root child and the new attach point. */
  method AddArgument(root: TreeNode<string>, name: string, ghost v: Node<string>, ghost u: Node<string>,
                     ghost repr: set<TreeNode<string>>, ghost chop: string -> string, ghost tokens: seq<string>)
    returns (next: TreeNode<string>, ghost repr': set<TreeNode<string>>)
    requires Shaped(root, v, repr) && Attached(chop, tokens)
    requires u == Node(v.value, v.children + [Node(name, [])])
    modifies root`children
    ensures Shaped(root, u, repr') && next in repr' && AttachPoint(root, next, chop, tokens)
    ensures repr <= repr' && fresh(repr' - repr)
  {
    next := AddToRoot(root, name, v, repr);
    repr' := repr + {next};
  }

  /** An undelimited token: a leaf under the attach point, which stays where it is. */
  method AddValue(root: TreeNode<string>, current: TreeNode<string>, token: string,
                  ghost v: Node<string>, ghost u: Node<string>, ghost repr: set<TreeNode<string>>,
                  ghost chop: string -> string, ghost prefix: seq<string>, ghost tokens: seq<string>)
    returns (ghost repr': set<TreeNode<string>>)
    requires Shaped(root, v, repr) && current in repr && AttachPoint(root, current, chop, prefix)
    requires Attached(chop, tokens) <==> Attached(chop, prefix)
    requires !Attached(chop, prefix) ==> u == Node(v.value, v.children + [Node(token, [])])
    requires Attached(chop, prefix) ==>
               |v.children| > 0 && u == Node(v.value, v.children[..|v.children| - 1] + [WithLeaf(v.children[|v.children| - 1], token)])
    modifies root`children, current`children
    ensures Shaped(root, u, repr') && current in repr' && AttachPoint(root, current, chop, tokens)
    ensures repr <= repr' && fresh(repr' - repr)
  {
    var newNode;
    if current == root {
      newNode := AddToRoot(root, token, v, repr);
    } else {
      newNode := AddToLast(root, current, token, v, repr);
    }
    repr' := repr + {newNode};
  }

  /** One iteration of ParseArgs: token `args[i]`, chopped by `chop`, is added where the source adds it. */
  method Step(rootValue: string, ghost chop: string -> string, args: seq<string>, i: nat, chopped: string,
              root: TreeNode<string>, current: TreeNode<string>,
              ghost v: Node<string>, ghost repr: set<TreeNode<string>>)
    returns (next: TreeNode<string>, ghost u: Node<string>, ghost repr': set<TreeNode<string>>)
    requires i < |args| && chopped == chop(args[i]) && v == ParseTree(rootValue, chop, args[..i])
    requires Building(root, current, v, repr, chop, args[..i])
    modifies root`children, current`children
    ensures u == ParseTree(rootValue, chop, args[..i + 1])
    ensures Building(root, next, u, repr', chop, args[..i + 1])
    ensures repr <= repr' && fresh(repr' - repr)
  {
    ghost var prefix := args[..i];
    var token := args[i];
    assert args[..i + 1] == prefix + [token];
    u := ParseTree(rootValue, chop, prefix + [token]);
    if chopped != token {
      ParseStepDelimited(rootValue, chop, prefix, token);
      next, repr' := AddArgument(root, chopped, v, u, repr, chop, prefix + [token]);
    } else {
      ParseStepValue(rootValue, chop, prefix, token);
      repr' := AddValue(root, current, token, v, u, repr, chop, prefix, prefix + [token]);
      next := current;
    }
  }

  /** The loop of ParseArgs: after the tokens `args` the heap tree under `root` has the shape of their parse. */
  method Build(rootValue: string, delimiters: seq<string>, args: seq<string>)
    returns (root: TreeNode<string>, ghost v: Node<string>, ghost repr: set<TreeNode<string>>)
    ensures v == ParseTree(rootValue, ChopWith(delimiters), args)
    ensures Shaped(root, v, repr) && fresh(repr)
  {
    root := new TreeNode(rootValue, null);
    var current := root;
    v := ParseTree(rootValue, ChopWith(delimiters), []);
    repr := {root};
    for i := 0 to |args|
      invariant fresh(repr)
      invariant v == ParseTree(rootValue, ChopWith(delimiters), args[..i])
      invariant Building(root, current, v, repr, ChopWith(delimiters), args[..i])
    {
      var chopped := ChopFirstMatch(args[i], delimiters);
      current, v, repr := Step(rootValue, ChopWith(delimiters), args, i, chopped, root, current, v, repr);
    }
    assert args[..|args|] == args;
  }

  /**
   * ParseArgs(rootValue, parameterDelimiters, args): a delimited token
   * (one the first matching delimiter shortens) becomes a new root child
   * and the attach point; any other token is added under the attach point,
   * which is the root until the first delimited token.  The tree built is
   * Parsing.ParseTree over the same tokens.
   */
  method ParseArgs(rootValue: string, delimiters: seq<string>, args: seq<string>)
    returns (tree: Tree<string>, ghost v: Node<string>, ghost repr: set<TreeNode<string>>)
    ensures v == ParseTree(rootValue, ChopWith(delimiters), args)
    ensures Mirrors(tree.root, v, repr) && Shaped(tree.root, v, repr) && fresh(repr)
  {
    var root;
    root, v, repr := Build(rootValue, delimiters, args);
    ParseTreeDepth(rootValue, ChopWith(delimiters), args);
    ShapedMirrors(root, v, repr);
    tree := NewTree(root).value;
  }

  // ---------------------------------------------------------------------
  // The context
  // ---------------------------------------------------------------------

  /** The static Context, as one object. */
  class Context {
    var invoked: bool
    /** The descriptor registry; discovering it by reflection is not modelled. */
    const registry: ArgumentDictionary
    var manualArguments: Option<seq<ManualArgument>>
    var parsedArgs: Option<Tree<string>>
    /** The snapshot of the parsed tree, and the nodes it is made of. */
    ghost var view: Node<string>
    ghost var repr: set<TreeNode<string>>
    var instances: seq<Target>
    /** Convert.ChangeType, as a given function. */
    const convert: Converter

    /** The registry is well formed, and Initialize set both the parsed tree and the manual group, or neither. */
    ghost predicate Valid()
      reads this, registry
    {
      registry.Valid() && (manualArguments.Some? <==> parsedArgs.Some?)
    }

    /** The parsed tree, when there is one, has the snapshot `view`. */
    ghost predicate Parsed()
      reads this`parsedArgs, this`view, this`repr, repr
    {
      parsedArgs.Some? ==> Mirrors(parsedArgs.value.root, view, repr)
    }

    /** A context before Initialize: nothing parsed, no manual group, nothing registered, not invoked. */
    constructor (registry: ArgumentDictionary, convert: Converter)
      requires registry.Valid()
      ensures Valid() && Parsed()
      ensures this.registry == registry && this.convert == convert
      ensures !invoked && manualArguments.None? && parsedArgs.None? && instances == []
    {
      this.registry := registry;
      this.convert := convert;
      invoked := false;
      manualArguments := None;
      parsedArgs := None;
      instances := [];
      view := Node("Context", []);
      repr := {};
    }

    /**
     * Initialize(args, parameterDelimiters, helpParameter, manualArguments):
     * absent arguments become empty; every delimiter followed by the help
     * parameter is removed from the arguments (Except, which also drops
     * repeated tokens); the rest is parsed under a root named "Context";
     * help was requested when the filtered arguments differ from the given ones.
     */
    method Initialize(args: Option<seq<string>>, parameterDelimiters: Option<seq<string>>,
                      helpParameter: Option<string>, manual: Option<seq<ManualArgument>>)
      returns (helpRequested: bool)
      requires Valid()
      modifies this`manualArguments, this`parsedArgs, this`view, this`repr
      ensures Valid() && Parsed()
      ensures var a := if args.Some? then args.value else [];
        var ds := if parameterDelimiters.Some? then parameterDelimiters.value else [];
        var help := if helpParameter.Some? then helpParameter.value else "";
        var filtered := Except(a, HelpTokens(ds, help));
        && view == ParseTree("Context", ChopWith(ds), filtered)
        && manualArguments == Some(if manual.Some? then manual.value else [])
        && (helpRequested <==> (exists i :: 0 <= i < |a| && a[i] in HelpTokens(ds, help)) || !NoDuplicates(a))
    {
      var a := if args.Some? then args.value else [];
      var ds := if parameterDelimiters.Some? then parameterDelimiters.value else [];
      var help := if helpParameter.Some? then helpParameter.value else "";
      var group := if manual.Some? then manual.value else [];
      var filtered := Except(a, HelpTokens(ds, help));
      var tree;
      ghost var v, nodes;
      tree, v, nodes := ParseArgs("Context", ds, filtered);
      Store(tree, v, nodes, group);
      HelpRequestedIff(a, ds, help);
      helpRequested := filtered != a;
    }

    /** Initialize's assignments: the parsed tree with its snapshot, and the manual group. */
    method Store(tree: Tree<string>, ghost v: Node<string>, ghost nodes: set<TreeNode<string>>,
                 group: seq<ManualArgument>)
      requires registry.Valid() && Mirrors(tree.root, v, nodes)
      modifies this`manualArguments, this`parsedArgs, this`view, this`repr
      ensures Valid() && Parsed()
      ensures parsedArgs == Some(tree) && view == v && repr == nodes && manualArguments == Some(group)
    {
      parsedArgs, view, repr := Some(tree), v, nodes;
      manualArguments := Some(group);
    }

    /** Initialize(instance): the instance's fields take their defaults; an empty registry throws first. */
    method InitializeInstance(instance: Target) returns (r: Outcome)
      requires registry.Valid()
      modifies registry`cachedValues, instance
      ensures registry.Valid()
      ensures var fs := Flattened(registry.container);
        && (fs.Failure? ==> r == Fail(fs.error) && instance.values == old(instance.values))
        && (fs.Success? ==>
              var q := Seed(Progress([], [], None), fs.value, EnvOf([instance], convert));
              && r == (if q.failure.None? then Pass else Fail(q.failure.value))
              && instance.values == ApplyAll(old(instance.values), instance.declared, q.written, convert))
    {
      var fs := registry.Values();
      if fs.Failure? {
        return Fail(fs.error);
      }
      r := SetInstanceFieldValues(fs.value, [instance], convert);
    }

    /** Register(instance): a non-null instance joins the instances; null is ignored. */
    method Register(instance: Target?)
      modifies this`instances
      ensures instances == old(instances) + (if instance == null then [] else [instance])
    {
      if instance != null {
        instances := instances + [instance];
      }
    }

    /**
     * The loop over a root child's values: the i-th value goes to the i-th
     * field of the group (ordered by position), which is then handled.
     */
    method AssignValues(node: TreeNode<string>, ghost values: seq<string>,
                        group: seq<Field>, userSupplied: seq<Argument>, ghost p: Progress, source: seq<Target>,
                        ghost base: map<Target, map<FieldId, Value>>)
      returns (r: Outcome, handled: seq<Argument>, ghost q: Progress)
      requires |group| == |node.children| == |values|
      requires forall j :: 0 <= j < |node.children| ==> node.children[j].value == values[j]
      requires p.failure.None? && p.handled == userSupplied
      requires forall t :: t in source ==> t in base && t.values == ApplyAll(base[t], t.declared, p.written, convert)
      modifies set t | t in source
      ensures q == Zip(p, group, values, |group|, EnvOf(source, convert))
      ensures r == (if q.failure.None? then Pass else Fail(q.failure.value))
      ensures q.failure.None? ==> handled == q.handled
      ensures forall t :: t in source ==> t.values == ApplyAll(base[t], t.declared, q.written, convert)
    {
      ghost var env := EnvOf(source, convert);
      q := p;
      handled := userSupplied;
      for counter := 0 to |node.children|
        invariant forall j :: 0 <= j < |node.children| ==> node.children[j].value == values[j]
        invariant q == Zip(p, group, values, counter, env) && q.failure.None? && handled == q.handled
        invariant forall t :: t in source ==> t.values == ApplyAll(base[t], t.declared, q.written, convert)
      {
        var currentField := group[counter];
        var o := SetInstanceFieldValue(node.children[counter].value, currentField.id, source, convert);
        ghost var before := q.written;
        q := Claim(Write(q, values[counter], currentField.id, env), Attribute(currentField.attr));
        if o.Fail? {
          ZipStops(p, group, values, counter + 1, |group|, env);
          return o, handled, q;
        }
        handled := handled + [Attribute(currentField.attr)];
        forall t | t in source
          ensures t.values == ApplyAll(base[t], t.declared, q.written, convert)
        {
          ApplyAllAppend(base[t], t.declared, before, Assignment(values[counter], currentField.id), convert);
        }
      }
      return Pass, handled, q;
    }

    /**
     * The body of Invoke's loop for one root child `node` (snapshot `v`):
     * Binding.ResolveNode, with each write performed on `source`.
     */
    method ResolveChild(node: TreeNode<string>, ghost v: Node<string>, ghost nodes: set<TreeNode<string>>,
                        userSupplied: seq<Argument>, ghost p: Progress, source: seq<Target>,
                        ghost base: map<Target, map<FieldId, Value>>)
      returns (r: Outcome, handled: seq<Argument>, ghost q: Progress)
      requires registry.Valid() && Mirrors(node, v, nodes)
      requires p.failure.None? && p.handled == userSupplied
      requires forall t :: t in source ==> t in base && t.values == ApplyAll(base[t], t.declared, p.written, convert)
      modifies set t | t in source
      ensures q == ResolveNode(p, v, registry.container, EnvOf(source, convert))
      ensures r == (if q.failure.None? then Pass else Fail(q.failure.value))
      ensures q.failure.None? ==> handled == q.handled
      ensures forall t :: t in source ==> t.values == ApplyAll(base[t], t.declared, q.written, convert)
    {
      ghost var env := EnvOf(source, convert);
      ghost var c := registry.container;
      if Claimed(userSupplied, node.value) {
        return Pass, userSupplied, p;
      }
      if !registry.ContainsKey(node.value) {
        q := p.(failure := Some(Unrecognized(node.value)));
        return Fail(Unrecognized(node.value)), userSupplied, q;
      }
      var group := registry.Lookup(node.value).value;
      if |group| == 1 && group[0].attr.position == -1 && |node.children| == 0 {
        var o := SetInstanceFieldValue("True", group[0].id, source, convert);
        q := Claim(Write(p, "True", group[0].id, env), Attribute(group[0].attr));
        if o.Fail? {
          return o, userSupplied, q;
        }
        forall t | t in source
          ensures t.values == ApplyAll(base[t], t.declared, q.written, convert)
        {
          ApplyAllAppend(base[t], t.declared, p.written, Assignment("True", group[0].id), convert);
        }
        return Pass, userSupplied + [Attribute(group[0].attr)], q;
      } else if |group| == |node.children| {
        ghost var values := Values(v.children);
        assert forall j :: 0 <= j < |node.children| ==> node.children[j].value == values[j] by {
          forall j | 0 <= j < |node.children| ensures node.children[j].value == values[j] {
            assert Mirrors(node.children[j], v.children[j], nodes);
          }
        }
        r, handled, q := AssignValues(node, values, group, userSupplied, p, source, base);
      } else {
        q := p.(failure := Some(Malformed(node.value)));
        return Fail(Malformed(node.value)), userSupplied, q;
      }
    }

    /** Invoke's loop over the root children of the parsed tree: Binding.ResolveAll, performed on `source`. */
    method ResolveChildren(root: TreeNode<string>, ghost v: Node<string>, ghost nodes: set<TreeNode<string>>,
                           userSupplied: seq<Argument>, ghost start: Progress, source: seq<Target>,
                           ghost base: map<Target, map<FieldId, Value>>)
      returns (r: Outcome, handled: seq<Argument>, ghost p: Progress)
      requires registry.Valid() && Mirrors(root, v, nodes)
      requires start.failure.None? && start.handled == userSupplied
      requires forall t :: t in source ==> t in base && t.values == ApplyAll(base[t], t.declared, start.written, convert)
      modifies set t | t in source
      ensures registry.Valid()
      ensures p == ResolveAll(start, v.children, registry.container, EnvOf(source, convert))
      ensures r == (if p.failure.None? then Pass else Fail(p.failure.value))
      ensures p.failure.None? ==> handled == p.handled
      ensures forall t :: t in source ==> t.values == ApplyAll(base[t], t.declared, p.written, convert)
    {
      ghost var c := registry.container;
      ghost var env := EnvOf(source, convert);
      ghost var children := v.children;
      assert |root.children| == |children|;
      p := start;
      handled := userSupplied;
      for i := 0 to |root.children|
        invariant Mirrors(root, v, nodes)
        invariant p == ResolveAll(start, children[..i], c, env) && p.failure.None? && handled == p.handled
        invariant forall t :: t in source ==> t.values == ApplyAll(base[t], t.declared, p.written, convert)
      {
        assert children[..i + 1][..i] == children[..i];
        assert Mirrors(root.children[i], children[i], nodes);
        var o;
        o, handled, p := ResolveChild(root.children[i], children[i], nodes, handled, p, source, base);
        if o.Fail? {
          ResolveAllStops(start, children, i + 1, c, env);
          return o, handled, p;
        }
      }
      assert children[..|root.children|] == children;
      return Pass, handled, p;
    }

    /** Invoke past its guards, as Binding.Bound. */
    method Proceed(manual: seq<ManualArgument>, groupResult: Result<seq<ManualArgument>>) returns (r: Outcome)
      requires Valid() && Parsed() && manualArguments == Some(manual)
      modifies registry`cachedValues, set t | t in instances
      ensures registry.Valid()
      ensures var run := Bound(manual, registry.container, view.children, groupResult, EnvOf(instances, convert));
        && r == run.outcome
        && forall t :: t in instances ==> t.values == ApplyAll(old(t.values), t.declared, run.written, convert)
    {
      ghost var c := registry.container;
      ghost var env := EnvOf(instances, convert);
      var fields := registry.Values();
      assert registry.container == c;
      if fields.Failure? {
        return Fail(fields.error);
      }
      var seeded, base := SeedInstances(fields.value, instances, convert);
      assert registry.container == c && registry.Valid();
      assert Seeded(c, env) == Seed(Progress([], [], None), fields.value, env);
      if seeded.Fail? {
        assert Bound(manual, c, view.children, groupResult, env) == Stopped(Seeded(c, env));
        return seeded;
      }
      r := Resolve(manual, fields.value, groupResult, base);
    }

    /** Invoke after seeding: a failing manual group stops it, otherwise the arguments are resolved. */
    method Resolve(manual: seq<ManualArgument>, fields: seq<Field>, groupResult: Result<seq<ManualArgument>>,
                   ghost base: map<Target, map<FieldId, Value>>)
      returns (r: Outcome)
      requires registry.Valid() && Parsed() && parsedArgs.Some?
      requires registry.container.keys != [] && fields == Flattened(registry.container).value
      requires Seeded(registry.container, EnvOf(instances, convert)).failure.None?
      requires forall t :: t in instances ==>
                 t in base && t.values == ApplyAll(base[t], t.declared, Seeded(registry.container, EnvOf(instances, convert)).written, convert)
      modifies registry`cachedValues, set t | t in instances
      ensures registry.Valid()
      ensures var run := Bound(manual, registry.container, view.children, groupResult, EnvOf(instances, convert));
        && r == run.outcome
        && forall t :: t in instances ==> t.values == ApplyAll(base[t], t.declared, run.written, convert)
    {
      ghost var c := registry.container;
      ghost var env := EnvOf(instances, convert);
      if groupResult.Failure? {
        assert Bound(manual, c, view.children, groupResult, env) == Run(Fail(groupResult.error), Seeded(c, env).written, []);
        return Fail(groupResult.error);
      }
      assert Bound(manual, c, view.children, groupResult, env)
          == Checked(fields, manual, Resolved(c, view.children, groupResult.value, env));
      r := ResolveArguments(manual, fields, groupResult.value, Seeded(c, env), base);
      assert registry.container == c;
    }

    /**
     * The manual group's handled arguments start the handled list, the root
     * children of the parsed tree are resolved, and the required check runs
     * over the descriptors (read again from the registry) and the manual
     * arguments.
     */
    method ResolveArguments(manual: seq<ManualArgument>, fields: seq<Field>, group: seq<ManualArgument>,
                            ghost seeded: Progress, ghost base: map<Target, map<FieldId, Value>>)
      returns (r: Outcome)
      requires registry.Valid() && Parsed() && parsedArgs.Some?
      requires registry.container.keys != [] && fields == Flattened(registry.container).value
      requires seeded.failure.None?
      requires forall t :: t in instances ==> t in base && t.values == ApplyAll(base[t], t.declared, seeded.written, convert)
      modifies registry`cachedValues, set t | t in instances
      ensures registry.Valid()
      ensures var run := Checked(fields, manual, ResolveAll(seeded.(handled := ManualArgs(group)), view.children,
                                                            registry.container, EnvOf(instances, convert)));
        && r == run.outcome
        && forall t :: t in instances ==> t.values == ApplyAll(base[t], t.declared, run.written, convert)
    {
      ghost var c := registry.container;
      ghost var start := seeded.(handled := ManualArgs(group));
      var userSupplied := ManualArgs(group);
      var resolved;
      ghost var p;
      assert Mirrors(parsedArgs.value.root, view, repr);
      resolved, userSupplied, p := ResolveChildren(parsedArgs.value.root, view, repr, userSupplied, start, instances, base);
      assert registry.container == c;
      if resolved.Fail? {
        return resolved;
      }
      r := CheckRequired(manual, fields, userSupplied, p);
      assert registry.container == c;
    }

    /** The required check: a required descriptor neither handled nor matched fails the invocation. */
    method CheckRequired(manual: seq<ManualArgument>, fields: seq<Field>, userSupplied: seq<Argument>,
                         ghost p: Progress)
      returns (r: Outcome)
      requires registry.Valid() && registry.container.keys != [] && fields == Flattened(registry.container).value
      requires p.failure.None? && userSupplied == p.handled
      modifies registry`cachedValues
      ensures registry.Valid()
      ensures r == Checked(fields, manual, p).outcome
    {
      var again := registry.Values();
      var missing := MissingEntries(Except(AllArguments(again.value, manual), userSupplied));
      if missing != [] {
        return Fail(MissingRequired(missing));
      }
      return Pass;
    }

    /** Invoke when it has not run before, as Binding.Bind with `invoked` false; the context's own fields are left alone. */
    method InvokeOnce(groupResult: Result<seq<ManualArgument>>) returns (r: Outcome)
      requires Valid() && Parsed()
      modifies registry`cachedValues, set t | t in instances
      ensures Valid() && Parsed()
      ensures var run := Bind(false, manualArguments, registry.container, view.children, groupResult,
                              EnvOf(instances, convert));
        && r == run.outcome
        && forall t :: t in instances ==> t.values == ApplyAll(old(t.values), t.declared, run.written, convert)
    {
      ghost var c := registry.container;
      ghost var env := EnvOf(instances, convert);
      if manualArguments.None? {
        assert forall t :: t in instances ==> t.values == ApplyAll(old(t.values), t.declared, [], convert);
        return Fail(NullArgument("source"));
      }
      var manual := manualArguments.value;
      var alreadyUsed := Collisions(manual, registry.container);
      if alreadyUsed != [] {
        assert forall t :: t in instances ==> t.values == ApplyAll(old(t.values), t.declared, [], convert);
        return Fail(NameCollision(alreadyUsed));
      }
      assert Bind(false, manualArguments, c, view.children, groupResult, env)
          == Bound(manual, c, view.children, groupResult, env);
      r := Proceed(manual, groupResult);
      assert registry.container == c;
    }

    /**
     * Invoke: once only and after Initialize; fails when a manual argument
     * reuses a descriptor's name; seeds every field's default; then resolves
     * the root children of the parsed tree (skipping those the manual group
     * or an earlier child handled), and finally fails when a required
     * descriptor was never handled.  The outcome and the writes are those
     * of Binding.Bind; each instance ends with those writes applied to it.
     */
    method Invoke(groupResult: Result<seq<ManualArgument>>) returns (r: Outcome)
      requires Valid() && Parsed()
      modifies this`invoked, registry`cachedValues, set t | t in instances
      ensures Valid() && Parsed()
      ensures var run := Bind(old(invoked), manualArguments, registry.container, view.children, groupResult,
                              EnvOf(instances, convert));
        && r == run.outcome
        && invoked == (old(invoked) || r.Pass?)
        && forall t :: t in instances ==> t.values == ApplyAll(old(t.values), t.declared, run.written, convert)
    {
      if invoked {
        assert forall t :: t in instances ==> t.values == ApplyAll(old(t.values), t.declared, [], convert);
        return Fail(DoubleInvocation);
      }
      r := InvokeOnce(groupResult);
      if r.Pass? {
        invoked := true;
      }
    }
  }
}
