# CommandLineArguments binding engine, in Dafny

The library (namespace `Drexel.Arguments`) turns a command line into
values in the fields of registered objects. A field declares itself
through an `ArgumentAttribute`. The attribute gives a default value, a
long and a short name, a position (`-1` marks a flag) and whether the
argument is required.

This project models the library's binding engine and proves properties
of it. The engine has four parts.

- **Token-tree parser.** `StringUtil.Chop` strips a delimiter such as `-`
  or `--` from the front of a token. `Context.ParseArgs` turns the token
  array into a tree: root, then argument names, then the values of each
  argument. `TreeNode<T>` and `Tree<T>` hold the tree.
- **Descriptor registry.** `ArgumentDictionary` files every field under
  both its long and its short name. A lookup returns a group ordered by
  position. `Values` is a flattened, de-duplicated view that is cached
  until the next `Add`.
- **Manual arguments.** A `ManualArgument` is declared at run time and
  hands its values to a callback. `InvokeSupplied` accepts a value list
  only when its length equals the declared count.
- **Binding pass.** `Context.Initialize` drops help tokens and repeated
  tokens, then parses what is left. `Context.Invoke` runs these steps in
  order:
  1. refuse a second run;
  2. refuse manual names that a descriptor already uses;
  3. write every field's default;
  4. resolve each argument node by one of four rules: flag, positional
     zip, malformed or unrecognized;
  5. refuse missing required arguments;
  6. set `Invoked`.

How each part is modelled:

- **Mutable objects are classes.** `TreeNode`, `ArgumentDictionary`,
  `ManualArgument`, the static `Context` and the registered objects
  (`Target`) are classes whose methods change their fields.
- **Queries are functions.** Tree enumeration, the parse result and the
  binding pass each have a specification function. That function works
  on value snapshots: `Node<T>` for a subtree, `Container` for the
  dictionary, `Progress` for the pass (writes so far, handled arguments,
  failure).
- **Exceptions are values.** Each exception the source throws is a
  `Fail`/`Failure` carrying an `Error`.
- **Methods are tied to their specifications.** Each imperative method
  is proved against its specification function: `ParseArgs` against
  `ParseTree`, `Invoke` against `Bind`, `ArgumentDictionary.Values`
  against `Flattened`. The lemmas then prove what the source promises
  about those functions.

Modules, one per file: `Common` (`common.dfy`), `Sequences`
(`sequences.dfy`), `StringUtil` (`string_util.dfy`), `TreeNodes`
(`tree_node.dfy`), `Trees` (`tree.dfy`), `Registry`
(`argument_dictionary.dfy`), `Manual` (`manual_argument.dfy`), `Parsing`
(`parsing.dfy`), `Targets` (`targets.dfy`), `Binding` (`binding.dfy`) and
`Contexts` (`context.dfy`).

Where the model follows the code rather than the documentation:

- **Duplicate tokens.** `Initialize` filters with `Enumerable.Except`,
  which also removes duplicates. A repeated token is therefore dropped
  before parsing, and `Initialize` then reports help as requested
  (`Parsing.HelpRequestedIff`).
- **Stray tokens.** Tokens before the first delimited token become root
  children. `Invoke` treats them as argument names, so an unregistered
  one is "unrecognized".
- **Repeated names.** The filter over root children is lazy and sees the
  handled list grow. A name that repeats after it was handled is
  therefore skipped (`Binding.RepeatedNameSkipped`).
- **Empty registry.** `Values` uses an unseeded `Aggregate`. `Invoke`
  therefore fails at the default-seeding step when no descriptor is
  registered.
- **Invoke without Initialize.** The collision check enumerates a null
  manual group, so the call fails there with `ArgumentNullException`.
  The `ParsedArgs` null check is never reached.
- **Descriptor equality.** Descriptors are compared by value. This is
  what `System.Attribute.Equals`, used by `Except` at `Context.cs:257`,
  does.

## Model

| member | source | states |
|---|---|---|
| StringUtil.Chop | CommandLineArguments/Arguments/StringUtil.cs:17-20 | When `startsWith` is a prefix, the result is `actual` with that prefix removed (`startsWith + r == actual`; an empty `startsWith` leaves `actual`). Otherwise the result is `actual` unchanged. The result is always a suffix of `actual`. |
| StringUtil.ChopAny | CommandLineArguments/Arguments/StringUtil.cs:28-39 | The list chop's result is a suffix of the token: what it removes is taken from the front. |
| StringUtil.ChopFirstMatch | CommandLineArguments/Arguments/StringUtil.cs:28-39 | The foreach loop with its early return computes exactly the list chop `ChopAny`. |
| StringUtil.ChopAnyPicksFirst | CommandLineArguments/Arguments/StringUtil.cs:30-36 | The first delimiter in list order whose chop changes the token decides the result. Delimiters before it that leave the token unchanged (such as `""`) are skipped. |
| StringUtil.FirstChange | CommandLineArguments/Arguments/StringUtil.cs:30-38 | Returns the index where the loop exits: every earlier delimiter leaves the token unchanged, the one at the index changes it and gives the result, and past the end of the list the result is the token itself. |
| StringUtil.ChopAnyIdentity | CommandLineArguments/Arguments/StringUtil.cs:28-39 | The list chop returns the token unchanged iff no delimiter in the list changes it. This covers the empty list. |
| StringUtil.ChopAnyStripsListed | CommandLineArguments/Arguments/StringUtil.cs:30-36 | When the list chop changes the token, it returns the index of a listed delimiter that is a prefix of the token, and that delimiter followed by the result is the token. |
| StringUtil.ShortDelimiterListedFirstWins | CommandLineArguments/Arguments/StringUtil.cs:30-36 | With `["-", "--"]`, the token `"--x"` becomes `"-x"`: list order wins, not length. |
| Sequences.Except | CommandLineArguments/Arguments/Context.cs:150-152 | `Enumerable.Except` has no repeats. It holds exactly the elements of the input that are not excluded. |
| Sequences.ExceptKeepsOrder | CommandLineArguments/Arguments/Context.cs:150-152 | `Enumerable.Except` keeps the input's order: its elements appear in the order of their first occurrences in the input. |
| Sequences.Distinct | CommandLineArguments/Arguments/ArgumentDictionary.cs:36 | `Distinct` has no repeats and holds exactly the elements of its input. |
| Sequences.ExceptIsIdentity | CommandLineArguments/Arguments/Context.cs:152-159 | `Except(s, excluded)` equals `s` exactly when `s` has no repeated element and no element of `s` is in `excluded`. |
| TreeNodes.EnumerateIsPreOrder | CommandLineArguments/Arguments/Collections/TreeNode.cs:113-129 | The nested-loop enumerator equals the pre-order traversal: the node's own value first, then each child's subtree in order. It yields exactly one value per node. |
| TreeNodes.TreeTestsOrder | CommandLineArguments/Arguments.Tests/TreeTests.cs:20-52 | The tree built in the tree test enumerates as Root, ChildOne, SubChildOneOne, SubChildOneTwo, ChildTwo, SubChildTwoOne, SubSubChildTwoOneOne. |
| TreeNodes.RemoveFirst | CommandLineArguments/Arguments/Collections/TreeNode.cs:142 | `List.Remove` drops the first occurrence and keeps the rest in order. A non-member leaves the list unchanged. |
| TreeNodes.TreeNode.constructor | CommandLineArguments/Arguments/Collections/TreeNode.cs:24-30 | The node takes the value and the parent (possibly null) and starts with no children. A non-null parent receives the new node as its last child. |
| TreeNodes.TreeNode.Create | CommandLineArguments/Arguments/Collections/TreeNode.cs:24-35 | The full constructor. A non-null parent gets the new node as its last child before the children list is looked at. A null list leaves the node childless. A list holding null fails with `ArgumentException` (`InvalidArgument("children")`), after the parent was already extended, and the node keeps no children. Otherwise the node adopts the list in order and each member points back to it. |
| TreeNodes.TreeNode.Add | CommandLineArguments/Arguments/Collections/TreeNode.cs:62-71 | A null child throws and changes nothing. Otherwise the child's parent becomes this node and the child is appended after the existing children. The frame shows that the child's previous parent keeps it in its own list. |
| TreeNodes.TreeNode.AddRange | CommandLineArguments/Arguments/Collections/TreeNode.cs:77-95 | A null range throws, and so does a range containing a null; in both cases no child or parent link has changed. A valid range is appended in order, and every member points to this node. |
| TreeNodes.TreeNode.Remove | CommandLineArguments/Arguments/Collections/TreeNode.cs:135-143 | A null child throws. Otherwise the child's parent becomes null and its first occurrence is removed from the children. |
| TreeNodes.MirrorsUnique | CommandLineArguments/Arguments/Collections/TreeNode.cs:113-129 | A heap node has only one value snapshot, so its enumeration is well defined. |
| Trees.NewTree | CommandLineArguments/Arguments/Collections/Tree.cs:20-28 | A null root throws. Otherwise the tree's root is exactly the given node; the root field is immutable. |
| Trees.Enumeration | CommandLineArguments/Arguments/Collections/Tree.cs:39-51 | Both enumerators of the tree give the root's pre-order enumeration. It has one value per node, starting with the root's value. |
| Registry.SortByPosition | CommandLineArguments/Arguments/ArgumentDictionary.cs:48-53 | `OrderBy(Position)` returns the group sorted by ascending position, as a permutation of the group. |
| Registry.SortIsStable | CommandLineArguments/Arguments/ArgumentDictionary.cs:52 | Fields at the same position keep their insertion order. |
| Registry.File | CommandLineArguments/Arguments/ArgumentDictionary.cs:91-107 | Adding to one key appends to an existing group, or creates the group for a new key and appends the key to the key order. Every other key's group is unchanged. |
| Registry.AddFilesUnderBothNames | CommandLineArguments/Arguments/ArgumentDictionary.cs:61-79 | After `Add`, both names are keys and each group ends with the added fields in order; a new key holds exactly them. Every other group is unchanged. Equal long and short names receive the fields twice. |
| Registry.AggregateReversed | CommandLineArguments/Arguments/ArgumentDictionary.cs:35 | The unseeded `Aggregate` of the groups holds exactly the fields of some group. |
| Registry.Flattened | CommandLineArguments/Arguments/ArgumentDictionary.cs:30-37 | `Values` fails iff the dictionary is empty (unseeded `Aggregate`). Otherwise it lists every stored field exactly once, although each sits under two keys. |
| Registry.ArgumentDictionary.constructor | CommandLineArguments/Arguments/ArgumentDictionary.cs:17-21 | A new dictionary has no keys and no cached values. |
| Registry.ArgumentDictionary.Values | CommandLineArguments/Arguments/ArgumentDictionary.cs:26-41 | The memoized getter returns `Flattened` of the current contents and leaves it in the cache. A cached value always equals what a fresh computation would give. |
| Registry.ArgumentDictionary.Lookup | CommandLineArguments/Arguments/ArgumentDictionary.cs:48-54 | The indexer fails with `KeyNotFound` iff the key is unknown. Otherwise it returns the key's group sorted by position, as a permutation of that group. |
| Registry.ArgumentDictionary.ContainsKey | CommandLineArguments/Arguments/ArgumentDictionary.cs:117-120 | True iff the string is a key. |
| Registry.ArgumentDictionary.ContainsArgument | CommandLineArguments/Arguments/ArgumentDictionary.cs:127-131 | True iff the argument's long name or short name is a key. |
| Registry.ArgumentDictionary.Add | CommandLineArguments/Arguments/ArgumentDictionary.cs:89-110 | The field is filed under both names (`AddUnder`), and the cache is cleared so the next `Values` reflects it. |
| Registry.ArgumentDictionary.AddRange | CommandLineArguments/Arguments/ArgumentDictionary.cs:61-82 | All fields are filed, in order, under both names, and the cache is cleared. |
| Manual.FirstOrDefault | CommandLineArguments/Arguments/ManualArgument.cs:75 | `FirstOrDefault` gives the first value, or null for an empty list. |
| Manual.ManualArgument.constructor | CommandLineArguments/Arguments/ManualArgument.cs:38-53 | Names, example and description are stored verbatim with the given count. The list callback is stored and there is no missing-action. |
| Manual.ManualArgument.Single | CommandLineArguments/Arguments/ManualArgument.cs:63-77 | The single-value constructor fixes the count at 1 and stores a callback that takes the first value. |
| Manual.ManualArgument.Flag | CommandLineArguments/Arguments/ManualArgument.cs:86-99 | The flag constructor fixes the count at 0 and the example value at `"False"`, with no missing-action. |
| Manual.ManualArgument.FlagWhenMissing | CommandLineArguments/Arguments/ManualArgument.cs:109-122 | The same as `Flag`, plus a missing-action that is present exactly when `actionWhenMissing` is not null. |
| Manual.ManualArgument.SingleWhenMissing | CommandLineArguments/Arguments/ManualArgument.cs:146-161 | The same as `Single`, plus a missing-action that is present exactly when `actionWhenMissing` is not null. |
| Manual.ManualArgument.ListWhenMissing | CommandLineArguments/Arguments/ManualArgument.cs:187-204 | The same as the primary constructor, plus a missing-action that is present exactly when `actionWhenMissing` is not null. |
| Manual.ManualArgument.SuppliedGuard | CommandLineArguments/Arguments/ManualArgument.cs:231-239 | A null list fails with `ArgumentNullException`. A list whose length differs from the count fails with `ArgumentException`. The guard passes iff the length equals the count. |
| Manual.ManualArgument.InvokeSupplied | CommandLineArguments/Arguments/ManualArgument.cs:229-242 | The callback runs exactly once, on these values, iff the guard passes. When the guard fails, the callback does not run. |
| Manual.ManualArgument.InvokeMissing | CommandLineArguments/Arguments/ManualArgument.cs:247-250 | The missing-action runs once if a `...WhenMissing` constructor was given a non-null one. Otherwise nothing happens, as `missingAction?.Invoke()` does. |
| Manual.SingleReceivesTheValue | CommandLineArguments/Arguments/ManualArgument.cs:63-77 | A single-value argument whose guard passed hands its one supplied value to the caller's action. |
| Parsing.ParseTree | CommandLineArguments/Arguments/Context.cs:298-314 | The root holds the root value. Once a delimited token has been read, the root has a child to attach values to. |
| Parsing.ParseAppend | CommandLineArguments/Arguments/Context.cs:303-313 | One more token works as follows. A token the chop changes becomes a new last root child, holding the chopped name. Before any delimited token, another token becomes a root child. After one, it is appended under the last root child. |
| Parsing.ParseTreeDepth | CommandLineArguments/Arguments/Context.cs:293-317 | Every node below a root child is a leaf: the tree is at most two levels deep. |
| Parsing.ParseTreeSize | CommandLineArguments/Arguments/Context.cs:300-314 | Each token yields exactly one node, so the tree has one node more than there are tokens. |
| Parsing.ParseTreePreOrder | CommandLineArguments/Arguments/Context.cs:293-317 | Enumerating the tree gives the root value, then every token, chopped, in input order. |
| Parsing.RootChildNames | CommandLineArguments/Arguments/Context.cs:303-313 | The root children are the stray tokens before the first delimited token, followed by the chopped names of all delimited tokens, in input order. |
| Parsing.ChopWith | CommandLineArguments/Arguments/Context.cs:303 | The chop applied to each token is `StringUtil.Chop` over the delimiter list. |
| Parsing.HelpTokens | CommandLineArguments/Arguments/Context.cs:150-151 | The help tokens are every delimiter followed by the help parameter, in delimiter order. |
| Parsing.HelpRequestedIff | CommandLineArguments/Arguments/Context.cs:150-159 | `Initialize` reports help iff some argument is a help token or some argument occurs twice. |
| Targets.Apply | CommandLineArguments/Arguments/Context.cs:389-392 | An object that does not declare the field is untouched. One that declares it takes the converted value. |
| Targets.ApplyAllUntouched | CommandLineArguments/Arguments/Context.cs:368-394 | A field that no write names, or that the object does not declare, keeps its value or stays absent. |
| Targets.ApplyAllLastWriteWins | CommandLineArguments/Arguments/Context.cs:384-394 | The last converting write to a declared field decides its value. |
| Targets.ApplyAllDomain | CommandLineArguments/Arguments/Context.cs:384-394 | After the writes, an object holds exactly its earlier fields plus each declared field that some write converted. |
| Binding.InUse | CommandLineArguments/Arguments/Context.cs:192-198 | Keeps exactly the given names that are registry keys. The result is empty iff none of them is a key. |
| Binding.Collisions | CommandLineArguments/Arguments/Context.cs:191-200 | The collision list is empty iff no manual argument's long or short name is a registry key. |
| Binding.AllArguments | CommandLineArguments/Arguments/Context.cs:253-256 | Every field's descriptor, then every manual argument, in order. |
| Binding.MissingEntries | CommandLineArguments/Arguments/Context.cs:260-268 | The list of `"short (long)"` entries is empty iff no remaining argument is required. |
| Binding.MissingEntriesOne | CommandLineArguments/Arguments/Context.cs:262-265 | One argument contributes exactly its `"short (long)"` entry when it is required, and nothing otherwise. |
| Binding.MissingEntriesAppend | CommandLineArguments/Arguments/Context.cs:262-265 | The entries of two lists joined are the entries of the first followed by those of the second. With `MissingEntriesOne`, the message lists one entry per required remaining argument, in the arguments' order. |
| Binding.Bind | CommandLineArguments/Arguments/Context.cs:175-272 | A second run fails with "Cannot invoke multiple times", and so does a run without `Initialize` (null manual group). A name collision fails listing the names. Each of these fails before any field is written. A passing run was the first run, after `Initialize`, with no collision and a non-empty registry. |
| Binding.Bound | CommandLineArguments/Arguments/Context.cs:206-251 | An empty registry fails at the seeding step, before any write. A passing run had a non-empty registry and a manual group that succeeded. |
| Binding.Checked | CommandLineArguments/Arguments/Context.cs:253-271 | The required check writes nothing. The run passes iff the pass had no failure and no required argument is left over after the handled ones are set aside. An earlier failure is the run's outcome. Otherwise, when required arguments are left over, the run fails with `MissingRequired` naming exactly `MissingEntries` of the left-over arguments. |
| Binding.SeedAbsorbs | CommandLineArguments/Arguments/Context.cs:372-375 | Once the seed pass has failed, the rest of it changes nothing (the exception propagates). |
| Binding.ResolveAllAbsorbs | CommandLineArguments/Arguments/Context.cs:211-251 | Once the node loop has failed, the remaining nodes change nothing. |
| Binding.SeedStops | CommandLineArguments/Arguments/Context.cs:372-375 | A failure after some defaults is the result of the whole seed pass. |
| Binding.ResolveAllStops | CommandLineArguments/Arguments/Context.cs:211-251 | A failure after some root children is the result of the whole node loop. |
| Binding.ZipStops | CommandLineArguments/Arguments/Context.cs:231-240 | A failure after some values is the result of the whole value loop. |
| Binding.SeedWritesDefaults | CommandLineArguments/Arguments/Context.cs:368-376 | The seed pass succeeds iff no default is rejected by the conversion. On success, it writes each field's default in order and handles nothing. Otherwise it stops at the first rejected default, having written the ones before it. |
| Binding.ZipWrites | CommandLineArguments/Arguments/Context.cs:229-241 | The value loop succeeds iff no value is rejected. Then the i-th field of the group gets the i-th value and each descriptor is handled, in order. A failure names a rejected value. |
| Binding.ZipGrows | CommandLineArguments/Arguments/Context.cs:231-240 | The value loop only appends, to the writes and to the handled list. |
| Binding.ResolveNodeGrows | CommandLineArguments/Arguments/Context.cs:215-250 | Resolving one root child only appends, to the writes and to the handled list. |
| Binding.ResolveNodeRules | CommandLineArguments/Arguments/Context.cs:215-250 | For an unclaimed root child, in order: an unknown name is "Unrecognized"; a lone flag with no values gets `"True"` and is handled; a group as large as the value list gives its i-th descriptor by ascending position the i-th value; anything else is "Malformed". |
| Binding.ResolveAllRecognized | CommandLineArguments/Arguments/Context.cs:211-251 | After a successful loop, every root child named a registry key or an argument that was handled by then. |
| Binding.RepeatedNameSkipped | CommandLineArguments/Arguments/Context.cs:211-213 | Once a name has been resolved, a later root child with that name is skipped by the lazy filter. |
| Binding.NoneMissing | CommandLineArguments/Arguments/Context.cs:253-269 | When nothing required is missing, every required descriptor is in the handled list. |
| Binding.BindPass | CommandLineArguments/Arguments/Context.cs:175-272 | A passing `Invoke` ran once, after `Initialize`, without collisions. It wrote every default before any parsed value. Every root child was recognized or claimed, and every required descriptor in the registry was handled. |
| Contexts.SetInstanceFieldValue | CommandLineArguments/Arguments/Context.cs:384-394 | The loop writes the converted value into every object that declares the field; other objects and fields are untouched. It fails, writing nothing, iff some declaring object rejects the string. Repeated objects are handled correctly. |
| Contexts.SetInstanceFieldValues | CommandLineArguments/Arguments/Context.cs:368-376 | Every object ends as the seed pass's writes applied to its old values. The outcome is the seed pass's failure, if any. |
| Contexts.SeedInstances | CommandLineArguments/Arguments/Context.cs:206 | Invoke's seeding call: as `SetInstanceFieldValues`, and the returned snapshot holds every object's values from before the writes. |
| Contexts.Step | CommandLineArguments/Arguments/Context.cs:302-313 | One loop iteration turns the heap tree for a token prefix into the heap tree for the prefix plus one token: a token its chop shortens becomes a new root child and the attach point, any other token a leaf under the attach point. |
| Contexts.Build | CommandLineArguments/Arguments/Context.cs:298-314 | The loop, chopping each token with `ChopFirstMatch`, leaves a freshly allocated heap tree shaped like `ParseTree` of all the arguments. |
| Contexts.ParseArgs | CommandLineArguments/Arguments/Context.cs:293-317 | The returned tree is freshly allocated and mirrors `ParseTree` of the arguments, so every `Parsing` lemma holds of it. The root children are distinct, and no grandchild is the root or a root child. The root has no parent, and every other node's parent is the node it hangs under. |
| Contexts.Context.constructor | CommandLineArguments/Arguments/Context.cs:33-54 | The static state starts not invoked, with no manual group, no parsed arguments and no registered objects, over the given registry and conversion. |
| Contexts.Context.Initialize | CommandLineArguments/Arguments/Context.cs:124-160 | Null inputs default to empty. The parsed tree is `ParseTree("Context", …)` of the arguments without help tokens and repeats. The manual group is stored. Help is reported iff a help token or a repeat occurred. |
| Contexts.Context.Store | CommandLineArguments/Arguments/Context.cs:154-157 | Storing the parsed tree and the manual group makes the context consistent and keeps the tree's snapshot as the parsed view. |
| Contexts.Context.InitializeInstance | CommandLineArguments/Arguments/Context.cs:166-169 | `Initialize(object)` seeds the defaults into that one object. An empty registry fails without writing. |
| Contexts.Context.Register | CommandLineArguments/Arguments/Context.cs:278-284 | A non-null object is appended to the registered objects; null is ignored. |
| Contexts.Context.AssignValues | CommandLineArguments/Arguments/Context.cs:229-241 | The counter loop performs the value loop `Zip` on the heap tree and the objects. |
| Contexts.Context.ResolveChild | CommandLineArguments/Arguments/Context.cs:215-250 | One iteration of the node loop performs `ResolveNode` on the heap tree and the objects. |
| Contexts.Context.ResolveChildren | CommandLineArguments/Arguments/Context.cs:211-251 | The foreach over root children, filtered lazily by the growing handled list, performs `ResolveAll`. |
| Contexts.Context.Proceed | CommandLineArguments/Arguments/Context.cs:206-271 | Everything after the collision check performs `Bound`: the outcome is `Bound`'s, and every registered object ends as `Bound`'s writes applied to its old values. |
| Contexts.Context.Resolve | CommandLineArguments/Arguments/Context.cs:208-269 | Given objects already holding the seeded defaults, the rest of `Invoke` performs `Bound`. A failing manual group stops it with that failure and nothing more written. |
| Contexts.Context.ResolveArguments | CommandLineArguments/Arguments/Context.cs:208-269 | With the manual group's handled arguments as the handled list, the node loop and the required check perform `Checked` of `ResolveAll` from the seeded state. |
| Contexts.Context.CheckRequired | CommandLineArguments/Arguments/Context.cs:253-269 | The required-argument check performs `Checked`. |
| Contexts.Context.InvokeOnce | CommandLineArguments/Arguments/Context.cs:190-271 | A first call performs `Bind` with `invoked` false. A missing manual group or a name collision fails before anything is written. |
| Contexts.Context.Invoke | CommandLineArguments/Arguments/Context.cs:175-272 | The outcome is `Bind`'s. `Invoked` is set only when the call passes, so a failed call leaves it as it was. Every registered object ends as `Bind`'s writes applied to its old values. |

## Left out

- Reflection is not modelled: `Context.Iterate`, the binding flags, the `RegisteredTypesOnly` re-discovery (`Context.cs:182-189`) and `GetFields(...).Contains`. The registry is a given `ArgumentDictionary`, and each object's declared fields are a given set.
- `Convert.ChangeType` and `FieldInfo.SetValue` are not modelled. The conversion is the `Converter` parameter, which may refuse a string. Values are an opaque type.
- `ArgumentGroup.Invoke` is not modelled because its code is not part of this model. Its result is the `groupResult` parameter of `Invoke`: the manual arguments it handled, or the error it raised. The enumeration of the manual group for the collision check uses the stored sequence.
- `WeakReference` tracking and pruning of collected objects in `Instances` is not modelled, because it depends on the garbage collector. The registered objects are an explicit sequence.
- `Arguments` (`Context.cs:59-65`) is a read-only concatenation that nothing in the core uses.
- The `Initialized` property is never set by the source, so it is not modelled.
- `HeapWalker.cs`, `Sets/ArgumentSet.cs`, the empty `ArgumentGroup` stub, the older `CommandLineArguments/Context.cs` snapshot, the demo program and the test constants are not part of this model.
- `TreeNode.Dispose` disposes resources, which the model has none of.
- `string.StartsWith` is culture-sensitive in the source. The model uses the ordinal prefix test.
- Callbacks and conversions are taken not to throw or loop. `ManualArgument` records what its callback received in a ghost log instead of running caller code.
- Nulls are ruled out by the types, except where the source checks for them. Those cases are modelled with `Option`/nullable references: the tree node's parent and its optional list of possibly-null children, `Tree`'s root, `Initialize`'s parameters, `InvokeSupplied`'s list, `Register`'s object and the manual group before `Initialize`.
- `ManualArgument` has no `Required` property in this snapshot of the source. Manual arguments are never required in the model.
- `Dictionary` enumeration order is taken to be insertion order (`Container.keys`). The order only affects the order of `Values`, never its contents.
- The parse example in the context tests (`ContextTests.cs:59-85`) is not reproduced as a concrete instance. Its tree follows from `Parsing.ParseTreePreOrder` and `Parsing.RootChildNames`.
- Contexts.Context.Invoke: the manual group's side effects on objects are not modelled. Only the fields the binding pass itself writes are tracked.
- Tree enumeration is stated on value snapshots. `Mirrors` ties a heap node to its snapshot, so the heap tree must not change while it is enumerated.
