/**
 * The shape of the tree Context.ParseArgs builds from a flat token array.
 * ParseTree follows the tokens one at a time, as the loop does; the lemmas
 * below pin the result down independently: one node per token, depth at
 * most two, the root children named by the stray tokens and then by the
 * chopped delimited tokens, and a pre-order enumeration that gives back
 * every token, chopped, in input order.
 */
module Parsing {
  import opened StringUtil
  import opened TreeNodes
  import opened Sequences

  /** A token that the chop changes names an argument. */
  predicate Delimited(chop: string -> string, token: string)
  {
    chop(token) != token
  }

  /** Some delimited token has been read, so the attach point is the last root child. */
  predicate Attached(chop: string -> string, tokens: seq<string>)
  {
    exists i :: 0 <= i < |tokens| && Delimited(chop, tokens[i])
  }

  /** `n` with one more childless child holding `value`. */
  function WithLeaf(n: Node<string>, value: string): (r: Node<string>)
    ensures r.value == n.value && r.children == n.children + [Node(value, [])]
  {
    Node(n.value, n.children + [Node(value, [])])
  }

  /**
   * The tree ParseArgs(rootValue, delimiters, tokens) returns, as a value,
   * with `chop` the delimiter chop: a delimited token becomes a new root
   * child; any other token goes under the last root child once a delimited
   * token has been read, and under the root before that.
   */
  function ParseTree(rootValue: string, chop: string -> string, tokens: seq<string>): (t: Node<string>)
    ensures t.value == rootValue
    ensures Attached(chop, tokens) ==> |t.children| > 0
  {
    if tokens == [] then Node(rootValue, [])
    else
      var init := tokens[..|tokens| - 1];
      var token := tokens[|tokens| - 1];
      var t := ParseTree(rootValue, chop, init);
      assert Attached(chop, tokens) ==> Attached(chop, init) || Delimited(chop, token) by {
        if Attached(chop, tokens) && !Delimited(chop, token) {
          var i :| 0 <= i < |tokens| && Delimited(chop, tokens[i]);
          assert init[i] == tokens[i];
        }
      }
      if Delimited(chop, token) then Node(rootValue, t.children + [Node(chop(token), [])])
      else if Attached(chop, init) then
        Node(rootValue, t.children[..|t.children| - 1] + [WithLeaf(t.children[|t.children| - 1], token)])
      else Node(rootValue, t.children + [Node(token, [])])
  }

  /** Unfolding ParseTree at the last token, with the attach point carried along. */
  lemma ParseAppend(rootValue: string, chop: string -> string, tokens: seq<string>, token: string)
    ensures var t := ParseTree(rootValue, chop, tokens);
      var u := ParseTree(rootValue, chop, tokens + [token]);
      && (Delimited(chop, token) ==> u.children == t.children + [Node(chop(token), [])])
      && (!Delimited(chop, token) && !Attached(chop, tokens) ==> u.children == t.children + [Node(token, [])])
      && (!Delimited(chop, token) && Attached(chop, tokens) ==>
            u.children == t.children[..|t.children| - 1] + [WithLeaf(t.children[|t.children| - 1], token)])
      && (Attached(chop, tokens + [token]) <==> Attached(chop, tokens) || Delimited(chop, token))
  {
    var longer := tokens + [token];
    assert longer[..|longer| - 1] == tokens;
    if Attached(chop, tokens) {
      var i :| 0 <= i < |tokens| && Delimited(chop, tokens[i]);
      assert longer[i] == tokens[i];
    }
    if Attached(chop, longer) && !Delimited(chop, token) {
      var i :| 0 <= i < |longer| && Delimited(chop, longer[i]);
      assert tokens[i] == longer[i];
    }
  }

  // ---------------------------------------------------------------------
  // Depth and size
  // ---------------------------------------------------------------------

  /** Every node below a root child is a leaf: the tree is at most two levels deep. */
  predicate ShallowTree(t: Node<string>)
  {
    forall i, j :: 0 <= i < |t.children| && 0 <= j < |t.children[i].children| ==>
      t.children[i].children[j].children == []
  }

  lemma {:induction false} ParseTreeDepth(rootValue: string, chop: string -> string, tokens: seq<string>)
    ensures ShallowTree(ParseTree(rootValue, chop, tokens))
    decreases |tokens|
  {
    if tokens != [] {
      var init := tokens[..|tokens| - 1];
      var token := tokens[|tokens| - 1];
      assert init + [token] == tokens;
      ParseTreeDepth(rootValue, chop, init);
      ParseAppend(rootValue, chop, init, token);
      var cs := ParseTree(rootValue, chop, init).children;
      var u := ParseTree(rootValue, chop, tokens);
      if !Delimited(chop, token) && Attached(chop, init) {
        var n := |cs|;
        forall i, j | 0 <= i < |u.children| && 0 <= j < |u.children[i].children|
          ensures u.children[i].children[j].children == []
        {
          if i < n - 1 {
            assert u.children[i] == cs[i];
          } else if j < |cs[n - 1].children| {
            assert u.children[i].children[j] == cs[n - 1].children[j];
          }
        }
      } else {
        forall i, j | 0 <= i < |u.children| && 0 <= j < |u.children[i].children|
          ensures u.children[i].children[j].children == []
        {
          if i < |cs| {
            assert u.children[i] == cs[i];
          }
        }
      }
    }
  }

  lemma {:induction false} SizeAllAppend(a: seq<Node<string>>, b: seq<Node<string>>)
    ensures SizeAll(a + b) == SizeAll(a) + SizeAll(b)
    decreases |a|
  {
    if a == [] {
      assert a + b == b;
    } else {
      assert (a + b)[0] == a[0] && (a + b)[1..] == a[1..] + b;
      SizeAllAppend(a[1..], b);
    }
  }

  /** Each token yields exactly one node, so the tree has one node more than there are tokens. */
  lemma {:induction false} ParseTreeSize(rootValue: string, chop: string -> string, tokens: seq<string>)
    ensures Size(ParseTree(rootValue, chop, tokens)) == |tokens| + 1
    decreases |tokens|
  {
    var t := ParseTree(rootValue, chop, tokens);
    if tokens == [] {
      assert t.children == [];
    } else {
      var init := tokens[..|tokens| - 1];
      var token := tokens[|tokens| - 1];
      assert init + [token] == tokens;
      ParseTreeSize(rootValue, chop, init);
      ParseAppend(rootValue, chop, init, token);
      var cs := ParseTree(rootValue, chop, init).children;
      if !Delimited(chop, token) && Attached(chop, init) {
        var n := |cs|;
        var last := cs[n - 1];
        var leaf := Node(token, []);
        FrontLast(cs);
        SizeAllAppend(cs[..n - 1], [last]);
        SizeAllAppend(cs[..n - 1], [WithLeaf(last, token)]);
        SizeAllAppend(last.children, [leaf]);
        assert SizeAll([leaf]) == 1 by { assert Size(leaf) == 1; }
        assert SizeAll([last]) == Size(last);
        assert SizeAll([WithLeaf(last, token)]) == Size(WithLeaf(last, token));
      } else {
        var leaf := Node(if Delimited(chop, token) then chop(token) else token, []);
        SizeAllAppend(cs, [leaf]);
        assert SizeAll([leaf]) == 1 by { assert Size(leaf) == 1; }
      }
    }
  }

  // ---------------------------------------------------------------------
  // Contents and order
  // ---------------------------------------------------------------------

  /** Every token chopped, in input order. */
  function Chopped(chop: string -> string, tokens: seq<string>): (r: seq<string>)
    ensures |r| == |tokens| && forall i :: 0 <= i < |r| ==> r[i] == chop(tokens[i])
  {
    seq(|tokens|, i requires 0 <= i < |tokens| => chop(tokens[i]))
  }

  lemma {:induction false} PreOrderAllAppend(a: seq<Node<string>>, b: seq<Node<string>>)
    ensures PreOrderAll(a + b) == PreOrderAll(a) + PreOrderAll(b)
    decreases |a|
  {
    if a == [] {
      assert a + b == b;
    } else {
      assert (a + b)[0] == a[0] && (a + b)[1..] == a[1..] + b;
      PreOrderAllAppend(a[1..], b);
    }
  }

  lemma PreOrderOne(n: Node<string>)
    ensures PreOrderAll([n]) == PreOrder(n)
  {
    assert [n][1..] == [];
  }

  lemma PreOrderWithLeaf(n: Node<string>, value: string)
    ensures PreOrder(WithLeaf(n, value)) == PreOrder(n) + [value]
  {
    PreOrderAllAppend(n.children, [Node(value, [])]);
    PreOrderOne(Node(value, []));
  }

  /** A new leaf after the last node ends the enumeration. */
  lemma PreOrderAllPush(cs: seq<Node<string>>, value: string)
    ensures PreOrderAll(cs + [Node(value, [])]) == PreOrderAll(cs) + [value]
  {
    PreOrderAllAppend(cs, [Node(value, [])]);
    PreOrderOne(Node(value, []));
  }

  /** The enumeration of nodes is that of all but the last, then the last's. */
  lemma PreOrderAllSplitLast(cs: seq<Node<string>>)
    requires cs != []
    ensures PreOrderAll(cs) == PreOrderAll(cs[..|cs| - 1]) + PreOrder(cs[|cs| - 1])
  {
    FrontLast(cs);
    PreOrderAllAppend(cs[..|cs| - 1], [cs[|cs| - 1]]);
    PreOrderOne(cs[|cs| - 1]);
  }

  /** A new leaf under the last node ends the enumeration too. */
  lemma PreOrderAllGrowLast(cs: seq<Node<string>>, value: string)
    requires cs != []
    ensures PreOrderAll(cs[..|cs| - 1] + [WithLeaf(cs[|cs| - 1], value)]) == PreOrderAll(cs) + [value]
  {
    var init := cs[..|cs| - 1];
    var last := cs[|cs| - 1];
    var grown := WithLeaf(last, value);
    calc {
      PreOrderAll(init + [grown]);
      { PreOrderAllAppend(init, [grown]); PreOrderOne(grown); }
      PreOrderAll(init) + PreOrder(grown);
      { PreOrderWithLeaf(last, value); }
      PreOrderAll(init) + (PreOrder(last) + [value]);
      { ConcatAssociative(PreOrderAll(init), PreOrder(last), [value]); }
      (PreOrderAll(init) + PreOrder(last)) + [value];
      { PreOrderAllSplitLast(cs); }
      PreOrderAll(cs) + [value];
    }
  }

  /** One more token adds exactly its chopped form at the end of the enumeration. */
  lemma PreOrderAppend(rootValue: string, chop: string -> string, tokens: seq<string>, token: string)
    ensures PreOrder(ParseTree(rootValue, chop, tokens + [token]))
         == PreOrder(ParseTree(rootValue, chop, tokens)) + [chop(token)]
  {
    ParseAppend(rootValue, chop, tokens, token);
    var t := ParseTree(rootValue, chop, tokens);
    var u := ParseTree(rootValue, chop, tokens + [token]);
    if Delimited(chop, token) {
      PreOrderAllPush(t.children, chop(token));
    } else if Attached(chop, tokens) {
      PreOrderAllGrowLast(t.children, token);
    } else {
      PreOrderAllPush(t.children, token);
    }
    assert PreOrderAll(u.children) == PreOrderAll(t.children) + [chop(token)];
    ConcatAssociative([u.value], PreOrderAll(t.children), [chop(token)]);
  }

  /**
   * Enumerating the parsed tree yields the root value and then every token,
   * chopped, in input order: no token is lost, repeated or moved.
   */
  lemma {:induction false} ParseTreePreOrder(rootValue: string, chop: string -> string, tokens: seq<string>)
    ensures PreOrder(ParseTree(rootValue, chop, tokens)) == [rootValue] + Chopped(chop, tokens)
    decreases |tokens|
  {
    if tokens == [] {
      assert PreOrder(ParseTree(rootValue, chop, tokens)) == [rootValue];
    } else {
      var init := tokens[..|tokens| - 1];
      var token := tokens[|tokens| - 1];
      assert init + [token] == tokens;
      ParseTreePreOrder(rootValue, chop, init);
      PreOrderAppend(rootValue, chop, init, token);
      assert Chopped(chop, tokens) == Chopped(chop, init) + [chop(token)];
    }
  }

  /** How many tokens precede the first delimited token (all of them when none is). */
  function StrayCount(chop: string -> string, tokens: seq<string>): (k: nat)
    ensures k <= |tokens|
    ensures forall i :: 0 <= i < k ==> !Delimited(chop, tokens[i])
    ensures k < |tokens| ==> Delimited(chop, tokens[k])
  {
    if tokens == [] || Delimited(chop, tokens[0]) then 0
    else 1 + StrayCount(chop, tokens[1..])
  }

  /** A token sequence is attached exactly when its stray tokens stop short of its end. */
  lemma StrayCountAttached(chop: string -> string, tokens: seq<string>)
    ensures Attached(chop, tokens) <==> StrayCount(chop, tokens) < |tokens|
  {
  }

  /** The delimited tokens of `tokens`, chopped, in order. */
  function ArgumentNames(chop: string -> string, tokens: seq<string>): (r: seq<string>)
    ensures |r| <= |tokens|
  {
    if tokens == [] then []
    else
      var init := ArgumentNames(chop, tokens[..|tokens| - 1]);
      var token := tokens[|tokens| - 1];
      if Delimited(chop, token) then init + [chop(token)] else init
  }

  function Values(ns: seq<Node<string>>): (r: seq<string>)
    ensures |r| == |ns| && forall i :: 0 <= i < |ns| ==> r[i] == ns[i].value
  {
    seq(|ns|, i requires 0 <= i < |ns| => ns[i].value)
  }

  lemma {:induction false} ArgumentNamesOfUndelimited(chop: string -> string, tokens: seq<string>)
    requires !Attached(chop, tokens)
    ensures ArgumentNames(chop, tokens) == []
    decreases |tokens|
  {
    if tokens != [] {
      ArgumentNamesOfUndelimited(chop, tokens[..|tokens| - 1]);
    }
  }

  /** The stray prefix stops growing once a delimited token has been read. */
  lemma StrayCountAppendOne(chop: string -> string, tokens: seq<string>, token: string)
    ensures Attached(chop, tokens) ==> StrayCount(chop, tokens + [token]) == StrayCount(chop, tokens)
    ensures !Attached(chop, tokens) && Delimited(chop, token) ==> StrayCount(chop, tokens + [token]) == |tokens|
    ensures !Attached(chop, tokens) && !Delimited(chop, token) ==> StrayCount(chop, tokens + [token]) == |tokens| + 1
  {
    var longer := tokens + [token];
    var k := StrayCount(chop, longer);
    StrayCountAttached(chop, tokens);
    var m := StrayCount(chop, tokens);
    assert forall i :: 0 <= i < |tokens| ==> longer[i] == tokens[i];
    if m == |tokens| && Delimited(chop, token) {
      assert longer[|tokens|] == token;
    }
  }

  lemma ValuesPush(cs: seq<Node<string>>, n: Node<string>)
    ensures Values(cs + [n]) == Values(cs) + [n.value]
  {
  }

  lemma ValuesReplaceLast(cs: seq<Node<string>>, n: Node<string>)
    requires cs != [] && n.value == cs[|cs| - 1].value
    ensures Values(cs[..|cs| - 1] + [n]) == Values(cs)
  {
  }

  /** The names of the root children after one more token. */
  lemma RootChildNamesAppend(rootValue: string, chop: string -> string, tokens: seq<string>, token: string)
    ensures var s := Values(ParseTree(rootValue, chop, tokens).children);
      var u := Values(ParseTree(rootValue, chop, tokens + [token]).children);
      && (Delimited(chop, token) ==> u == s + [chop(token)])
      && (!Delimited(chop, token) && !Attached(chop, tokens) ==> u == s + [token])
      && (!Delimited(chop, token) && Attached(chop, tokens) ==> u == s)
  {
    ParseAppend(rootValue, chop, tokens, token);
    var cs := ParseTree(rootValue, chop, tokens).children;
    if Delimited(chop, token) {
      ValuesPush(cs, Node(chop(token), []));
    } else if Attached(chop, tokens) {
      ValuesReplaceLast(cs, WithLeaf(cs[|cs| - 1], token));
    } else {
      ValuesPush(cs, Node(token, []));
    }
  }

  /** The stray prefix and the argument names after one more token. */
  lemma NamesAppend(chop: string -> string, tokens: seq<string>, token: string)
    ensures var longer := tokens + [token];
      && (Delimited(chop, token) ==>
            longer[..StrayCount(chop, longer)] + ArgumentNames(chop, longer)
            == tokens[..StrayCount(chop, tokens)] + ArgumentNames(chop, tokens) + [chop(token)])
      && (!Delimited(chop, token) && !Attached(chop, tokens) ==>
            longer[..StrayCount(chop, longer)] + ArgumentNames(chop, longer)
            == tokens[..StrayCount(chop, tokens)] + ArgumentNames(chop, tokens) + [token])
      && (!Delimited(chop, token) && Attached(chop, tokens) ==>
            longer[..StrayCount(chop, longer)] + ArgumentNames(chop, longer)
            == tokens[..StrayCount(chop, tokens)] + ArgumentNames(chop, tokens))
  {
    var longer := tokens + [token];
    assert longer[..|longer| - 1] == tokens;
    StrayCountAppendOne(chop, tokens, token);
    StrayCountAttached(chop, tokens);
    var k := StrayCount(chop, tokens);
    assert longer[..k] == tokens[..k];
    if !Delimited(chop, token) && !Attached(chop, tokens) {
      ArgumentNamesOfUndelimited(chop, tokens);
      assert !Attached(chop, longer) by {
        ParseAppend("", chop, tokens, token);
      }
      ArgumentNamesOfUndelimited(chop, longer);
      assert longer[..k + 1] == tokens[..k] + [token];
    }
  }

  /**
   * The root children, in order, are the stray tokens before the first
   * delimited token followed by the chopped names of all delimited tokens.
   */
  lemma {:induction false} RootChildNames(rootValue: string, chop: string -> string, tokens: seq<string>)
    ensures Values(ParseTree(rootValue, chop, tokens).children)
         == tokens[..StrayCount(chop, tokens)] + ArgumentNames(chop, tokens)
    decreases |tokens|
  {
    if tokens != [] {
      var init := tokens[..|tokens| - 1];
      var token := tokens[|tokens| - 1];
      assert init + [token] == tokens;
      RootChildNames(rootValue, chop, init);
      RootChildNamesAppend(rootValue, chop, init, token);
      NamesAppend(chop, init, token);
    }
  }

  /** The chop ParseArgs applies to every token: StringUtil.Chop over the delimiter list. */
  function ChopWith(delimiters: seq<string>): (chop: string -> string)
    ensures forall t :: chop(t) == ChopAny(t, delimiters)
  {
    t => ChopAny(t, delimiters)
  }

  // ---------------------------------------------------------------------
  // Initialize's token filter
  // ---------------------------------------------------------------------

  /** Every delimiter followed by the help parameter. */
  function HelpTokens(delimiters: seq<string>, help: string): (r: seq<string>)
    ensures |r| == |delimiters| && forall i :: 0 <= i < |r| ==> r[i] == delimiters[i] + help
  {
    seq(|delimiters|, i requires 0 <= i < |delimiters| => delimiters[i] + help)
  }

  /**
   * Help is reported exactly when the filter changed the arguments: some
   * argument is a help token, or some argument occurs twice (Except also
   * drops repeats).
   */
  lemma HelpRequestedIff(args: seq<string>, delimiters: seq<string>, help: string)
    ensures Except(args, HelpTokens(delimiters, help)) != args
        <==> (exists i :: 0 <= i < |args| && args[i] in HelpTokens(delimiters, help)) || !NoDuplicates(args)
  {
    ExceptIsIdentity(args, HelpTokens(delimiters, help));
  }
}
