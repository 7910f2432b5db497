# Pablo collection engine, modelled in Dafny

Pablo is a small JavaScript library for SVG. A call such as `Pablo(x, attr)` returns
a *collection*: an array-like object holding host DOM nodes, with no node in it twice.
The collection has chainable methods for the following:

- building collections: `Pablo`, `push`, `unshift`, `eq`, `slice`, …;
- walking the tree: `relations` and its shortcuts `children`, `parents`, `siblings`, `root`, …;
- matching selectors: `some`, `every` and `select` with a selector string;
- re-linking nodes: `append`, `before`, `after`, `prepend` and their `*To`/`insert*` forms, `remove`, `empty`, `clone` and `duplicate`;
- editing attributes: `attr`, `removeAttr` and `transform`;
- the class methods of the string-based strategy.

This project models that engine, which lives in `pablo.js`. It proves properties of the model.

The host DOM is a value, `Dom.Dom`, made of these parts:
- node ids;
- a kind per node: element (with namespace and tag), document or text;
- a parent map and ordered child lists;
- an ordered attribute list per node;
- the document node;
- the next free id.

`Dom.Valid` is the host's own shape. Parent and child lists agree, child lists have no
duplicates, a text node has no children, the document has no parent, and every parent
chain ends. `Dom.Extends` says that nodes are never destroyed and never change kind.

The host calls `pablo.js` makes are functions on that value: `createElementNS`,
`insertBefore` with the DOM's pre-insertion checks, `appendChild`, `removeChild`,
`cloneNode`, the attribute methods, `querySelectorAll` and the traversal properties.
A host call that raises is an error value (`Dom.DomError`). The Pablo loop that made the
call stops there. The tree is returned as the call left it.

The model is organised as follows:
- JavaScript arguments are `Collections.Item`.
- The collection object whose array is changed in place is the class
  `Collections.Collection`, with a `nodes` field.
- The DOM-facing methods take the collection's nodes and the tree, and return the new tree.
  Where the source loops, a `method` with a loop is proved equal to a recursive
  specification function. The properties are proved about that function.

Files:
- `dom.dfy`: the host.
- `collection.dfy`: `addElementIfUnique` and the array methods.
- `traversal.dfy`: `relations`, `find` and `matchSelectors`.
- `manipulation.dfy`: the insertion family, `remove` and `empty`.
- `cloning.dfy`: `clone` and `duplicate`.
- `attributes.dfy`: `attr`, `removeAttr` and `getAttributes`.
- `transform.dfy`: `transform`.
- `classes.dfy`: the class shim.
- `css.dfy`: `cssPrefix` and `hyphensToCamelCase`.
- `events.dfy`: splitting an event type list.
- `creation.dfy`: `Pablo`, `createPablo`, `selectPablo` and `toPablo`.
- `seqs.dfy` and `strings.dfy`: sequence and string helpers.

These literal behaviours of the code are kept and proved:
- `unshift` with a list appends.
- The match cache never hits.
- The topmost ancestor is the topmost *element*. As a result, a root element or a
  detached element never matches in `some`, `every` or `select`. The comment at
  `pablo.js:284` says otherwise.
- A detached non-element raises `HierarchyRequestError` when it is put into a
  temporary `<g>`.
- `after` inserts in reverse order, and a shared set ends up at the last target.
- `duplicate` copies only the first node.
- The attribute setter leaks a namespace from one property to the next.

## Model

| member | source | states |
|---|---|---|
| Dom.CreateElementNS | pablo.js:25-29 | creates a fresh, parentless, childless element with no attributes, in the given namespace and with the given tag. Every other node is unchanged and the tree stays valid |
| Collections.Make | pablo.js:25-29 | a string yields a fresh SVG-namespace element of that tag. Any other value yields nothing and leaves the tree alone |
| Collections.IsArrayLike | pablo.js:105-107 | true exactly for lists, collections and text nodes (the values with a numeric `length`) |
| Collections.CanBeWrapped | pablo.js:129-137 | true exactly for nodes, collections and lists, never for a string. Everything array-like can be wrapped |
| Collections.Added | pablo.js:147-196 | adding any item keeps the tree valid and only extends it |
| Collections.AddedRefs | pablo.js:147-196 | for items holding no string: the tree is unchanged. The members are exactly the old members plus the item's non-text nodes. No duplicate is introduced. Unless a node is prepended, the old collection is a prefix of the new one |
| Collections.AddedDistinct | pablo.js:155-161 | a duplicate-free collection stays duplicate-free, keeps every old member, and holds only addable nodes |
| Collections.AddedAllDistinct | pablo.js:188-191 | the same for a list of items flattened in order |
| Collections.AddedString | pablo.js:150-195 | a string always creates one fresh SVG element `d.next` of that tag. It is put first for `unshift` and last for `push` |
| Collections.UnshiftListAppends | pablo.js:188-191 | `unshift` of a list gives the same result as `push` of it, because the recursive call drops the prepend flag. The old collection stays a prefix |
| Collections.AddedAllIsAddNodes | pablo.js:188-191 | adding a list without strings leaves the tree alone and equals adding its nodes one by one, in order, skipping those already present |
| Collections.Collection.AddIfUnique | pablo.js:147-196 | the new node array and tree are exactly `Added` of the old ones |
| Collections.Collection.AddAll | pablo.js:188-191 | the new node array and tree are `AddedAll` of the old ones |
| Collections.Collection.AddNodesAtEnd | pablo.js:188-191 | pushing nodes one by one appends, in order, each one that is neither present yet nor a text node |
| Collections.Collection.constructor | pablo.js:344-345 | a new collection holds no nodes |
| Collections.Collection.Push | pablo.js:395-398 | `push` is `Added` at the end. The old nodes stay a prefix and the collection stays well formed |
| Collections.Collection.Unshift | pablo.js:401-404 | `unshift` is `Added` at the front, and the collection stays well formed |
| Collections.Collection.Pop | pablo.js:407-409 | an empty collection stays empty and yields nothing. Otherwise the last node is removed and returned as a one-node collection |
| Collections.Collection.Shift | pablo.js:411-413 | the same for the first node |
| Collections.Collection.ReverseInPlace | pablo.js:419-422 | the node array becomes its reverse |
| Collections.PushKeepsPrefix | pablo.js:395-398 | `push` never reorders or drops existing nodes |
| Collections.RelativeIndex | pablo.js:415-417 | the index rule of `Array.prototype.slice`: a negative index counts from the end, and the result is clamped to `[0, length]` |
| Collections.Slice | pablo.js:415-417 | with no bounds, `slice` is the whole collection. `slice(-k)` is the last k nodes. In-range bounds give that range, and crossed bounds give nothing. The result is always one contiguous run of the collection, with no duplicates if the collection had none |
| Collections.Eq | pablo.js:378-384 | at most one node. Non-empty exactly when `-length <= i < length`, and then it is the i-th node, counting from the end for negative i |
| Collections.First | pablo.js:386-388 | the first node, or nothing on an empty collection |
| Collections.Last | pablo.js:390-392 | the last node, or nothing on an empty collection |
| Collections.IndexOf | pablo.js:459-464 | the position of the first occurrence of the node, or of a collection's first node. -1 exactly when it is absent |
| Collections.SomeWith | pablo.js:438-442 | `some` with a callback: true exactly when the callback holds at some (node, index) |
| Collections.EveryWith | pablo.js:444-448 | `every` with a callback: true exactly when it holds at every (node, index) |
| Collections.SelectWith | pablo.js:453-457 | `select` with a callback keeps a subsequence in source order. On a duplicate-free collection, a node is kept exactly when the callback holds at its index |
| Collections.SelectWithFilter | pablo.js:453-457 | when the callback does not look at the index, the result is the ordered filter of the collection |
| Traversal.Step | pablo.js:478 | one hop `el[prop]` yields a node, nothing, or (for `childNodes`) a list, and never anything from a non-node |
| Traversal.Walk | pablo.js:479-484 | everything a walk pushes is in the tree and holds no string |
| Traversal.WalkStep | pablo.js:479-484 | a node that passes the continuation is pushed, and the walk goes on from its next hop |
| Traversal.PushWalk | pablo.js:479-484 | the `while` loop pushes exactly the walk from the first hop, and the collection stays well formed |
| Traversal.PushFrom | pablo.js:478-485 | one round of `each` adds one source node's walk to what was pushed before |
| Traversal.RelatedNodes | pablo.js:474-487 | the result of `relations` has no duplicates, holds exactly the nodes of the per-source walks, and only addable ones |
| Traversal.Gather | pablo.js:476-485 | the loop over the collection computes `Related` |
| Traversal.Relations | pablo.js:474-487 | without selectors, the related nodes. With selectors, those nodes filtered by `select` |
| Traversal.OnceSingle | pablo.js:482-483 | with a null continuation, exactly one hop per source node |
| Traversal.ChildrenSingle | pablo.js:878 | `children()` is exactly the non-text child nodes |
| Traversal.ParentWalk | pablo.js:890 | walking `parentNode` while `isElement` reaches exactly the node and its element ancestors |
| Traversal.ParentsExactly | pablo.js:890 | `parents()` is exactly the element ancestors, so it stops before the document |
| Traversal.NextWalk | pablo.js:884 | `nextSiblings()` is exactly the element siblings after the node |
| Traversal.PreviousWalk | pablo.js:882 | `prevSiblings()` is exactly the element siblings before the node |
| Traversal.OwnerWalk | pablo.js:888 | `owners()` follows the chain of `ownerSVGElement` and is empty exactly when the node has no owner |
| Traversal.SiblingsSingle | pablo.js:489-492 | `siblings()` is exactly the other element children of the node's parent, and nothing for a parentless node |
| Traversal.SiblingsOf | pablo.js:489-492 | `siblings` pushes the next siblings after the previous ones, with the selector applied to each side |
| Traversal.RootSingle | pablo.js:495-497 | `root()` is empty exactly when there is no owner. Otherwise it is one outermost `<svg>` ancestor that has no owner itself |
| Traversal.Root | pablo.js:495-497 | `root` is the last node of `owners`, selected first when selectors are given |
| Traversal.FoundExactly | pablo.js:499-506 | `find` has no duplicates and holds exactly the nodes matching the selector that lie below some node of the collection |
| Traversal.Find | pablo.js:499-506 | the loop pushing each node's `querySelectorAll` computes `Found` |
| Traversal.PushNodeList | pablo.js:503 | pushing a NodeList adds its nodes in order and leaves the tree alone |
| Traversal.TopElement | pablo.js:285 | `parents(null, null).last()` is non-empty exactly when the node has an element parent, and then it is one element ancestor |
| Traversal.AncestorQuery | pablo.js:288-293 | a node is in its top element ancestor's query result exactly when it matches and has an element parent (`Hit`) |
| Traversal.Examine | pablo.js:282-318 | one node's lookup fails with `HierarchyRequestError` exactly when the node is not an element. Otherwise the node is in the matches exactly when `Hit` holds: it has an element parent and matches. So a detached element never matches, and the cache at line 290 never hits |
| Traversal.GroupClone | pablo.js:312-316 | a detached non-element (a document) cannot be appended to the temporary `<g>`: `HierarchyRequestError` |
| Traversal.JudgedFails | pablo.js:281-331 | the loop raises exactly when some node is not an element and every node before it let the loop go on |
| Traversal.JudgedAny | pablo.js:318-323 | `some`: without an error, true exactly when some node hits |
| Traversal.JudgedAll | pablo.js:318-330 | `every`: without an error, true exactly when every node hits |
| Traversal.JudgedKeep | pablo.js:318-327 | `filter`: without an error, the hitting nodes in source order |
| Traversal.Judged | pablo.js:274-336 | the answer of the loop: an error is always `HierarchyRequestError`, and a collection of nodes is answered exactly for `filter` |
| Traversal.JudgeOne | pablo.js:282-330 | one round either decides the answer of the remaining loop or leaves it equal to the answer of the rest, with the filtered nodes updated. `filtered.push` skips a node already there, which on a collection without duplicates never happens, so the hits are appended |
| Traversal.MatchSelectors | pablo.js:274-336 | on a collection without duplicates, the loop with its cache computes `Judged` |
| Traversal.SomeMatch | pablo.js:438-442 | `some`, both forms: a callback's existential, or with a selector, whether some node hits, unless it raises |
| Traversal.EveryMatch | pablo.js:444-448 | `every`, both forms |
| Traversal.SelectMatching | pablo.js:453-457 | `select`, both forms: the ordered filter |
| Dom.InsertBefore | pablo.js:553 | `insertBefore` raises exactly when the DOM's pre-insertion check fails. Otherwise the tree stays valid and only extended |
| Dom.AppendChild | pablo.js:533 | a successful `appendChild` keeps the tree valid and only extended |
| Manipulation.InsertedLists | pablo.js:553 | a successful `insertBefore` keeps kinds and attributes, makes the parent the child's parent, puts the child into the parent's list at the reference point, and removes it from every other list |
| Manipulation.NextInList | pablo.js:564 | `nextSibling` is the entry after the node in its parent's list |
| Manipulation.StepAtEnd | pablo.js:533 | after one `appendChild`, the target list is its old entries without the child, then the child |
| Manipulation.StepBefore | pablo.js:553 | after one `insertBefore(c, f)`, the child sits just before `f` and is gone from its old place |
| Manipulation.StepAfter | pablo.js:564 | inserting before `el.nextSibling` puts the child just after `el` |
| Manipulation.InsertChildren | pablo.js:532-534 | the inner `each` over `toPablo`'s nodes computes `Inserted` |
| Manipulation.InsertAllOf | pablo.js:532-534 | the inner `each` over the nodes `toPablo` returned computes `InsertAll` |
| Manipulation.InsertedValid | pablo.js:532-534 | inserting a sequence of nodes keeps the tree valid and only extended |
| Manipulation.InsertedAtEnd | pablo.js:530-537 | `append` leaves the target's list as its old entries minus the inserted nodes, followed by the inserted nodes in order |
| Manipulation.InsertedBefore | pablo.js:548-557 | `before` puts the nodes, in order, just before the reference node |
| Manipulation.InsertedAfter | pablo.js:559-568 | `after` puts the nodes just after the target, in reverse order |
| Manipulation.InsertedParents | pablo.js:551-555 | each inserted node's parent becomes the target parent, and no other link changes |
| Manipulation.InsertedOtherLists | pablo.js:551-555 | every other child list only loses the inserted nodes |
| Manipulation.OnTargetValid | pablo.js:530-568 | one target's step keeps the tree valid and only extended |
| Manipulation.ManipulateOne | pablo.js:530-594 | one target's step of `append`, `prepend`, `before` or `after` computes `OnTarget` |
| Manipulation.Manipulate | pablo.js:530-594 | the outer `each` computes `Manipulated`, and the tree stays valid and only extended |
| Manipulation.ManipulateStep | pablo.js:531-535 | one round of the outer `each` either ends the call with its error or leaves the result of the remaining rounds unchanged, with the tree valid and only extended |
| Manipulation.OnTargetMoves | pablo.js:548-568 | inserting a collection at one target re-parents exactly its nodes to that target's parent |
| Manipulation.Quiet | pablo.js:550-551 | targets without a parent leave `before` and `after` with nothing to do |
| Manipulation.LastTarget | pablo.js:559-568 | with a shared collection, the result is the last target's step applied to an intermediate tree |
| Manipulation.SharedSetMoves | pablo.js:548-568 | a shared collection ends up under the last target that has a parent |
| Manipulation.SharedSetAppended | pablo.js:530-537 | `append` of a shared collection leaves it, in order, at the end of the last target |
| Manipulation.SharedSetAfter | pablo.js:559-568 | `after` of a shared collection leaves it reversed, right after the last target that has a parent |
| Manipulation.AfterOneTarget | pablo.js:559-568 | after one target, the inserted nodes follow it in reverse order |
| Manipulation.InsertInto | pablo.js:539-594 | `appendTo`, `prependTo`, `insertBefore` and `insertAfter` (lines 539-542, 571-580, 591-594) insert the collection at every node of `toPablo(node, attr)`, unless `toPablo` raises. The tree stays valid and only extended |
| Manipulation.Child | pablo.js:544-546 | `child` appends `toPablo`'s nodes to every node of the collection and returns them |
| Manipulation.Removed | pablo.js:514-521 | removing keeps the tree valid and only extended |
| Manipulation.RemovedParents | pablo.js:514-521 | after `remove`, every node of the collection is detached, and every other node keeps its parent |
| Manipulation.RemovedLists | pablo.js:514-521 | every child list is the old one without the removed nodes, in the old order |
| Manipulation.Remove | pablo.js:514-521 | the loop computes `Removed` |
| Manipulation.EmptyAsWritten | pablo.js:523-526 | `empty` as written removes `children()` |
| Manipulation.EmptyKeepsText | pablo.js:523-526 | a text child survives `empty` as written |
| Manipulation.Emptied | pablo.js:523-526 | the intended `empty` keeps the tree valid and only extended |
| Manipulation.EmptiedEmpties | pablo.js:523-526 | after the intended `empty`, no node of the collection has a child |
| Manipulation.EmptyAll | pablo.js:523-526 | the loop computes the intended `Emptied` |
| Dom.CloneNode | pablo.js:599 | `cloneNode` makes a fresh parentless node of the same kind and attributes. A deep clone is a copy of the whole subtree (`SubtreeCopy`: same kind and attributes at every level, children copied in order, every node of the copy new). A shallow clone has no children. No existing node changes |
| Dom.CloneIntoCopies | pablo.js:599 | a deep clone copies the whole subtree of the original, in fresh nodes |
| Dom.CloneChildrenCopies | pablo.js:599 | copying the children under a fresh node keeps the children it had and appends a subtree copy of each child, in order |
| Dom.SubtreeCopyLasts | pablo.js:599 | a subtree copy stays a copy while only one node outside the copy changes its children and attributes |
| Cloning.CloneKeeps | pablo.js:599 | cloning leaves every existing node as it was. The new node is a copy of the original, of its whole subtree when deep |
| Cloning.Clone | pablo.js:596-601 | `clone` returns one distinct fresh copy per node, in order, and changes no existing node. An empty collection leaves the tree alone |
| Cloning.CopiesWrap | pablo.js:598-600 | wrapping the mapped copies gives exactly the copies |
| Cloning.Repeats | pablo.js:606-611 | a non-negative count is kept. A negative or missing count becomes 1 |
| Cloning.Duplicate | pablo.js:603-624 | `duplicate(0)` and an empty collection change nothing. Otherwise the collection grows by exactly `Repeats(n)` fresh copies of the first node, pushed after the old nodes, unless the insertion raises. When nothing raises, the copies stand in reverse order right after the last node of the collection that has a parent (`PlacedAfter`). The tree stays valid |
| Cloning.MakeCopies | pablo.js:606-616 | the loop makes exactly `count` distinct new nodes (none for an empty collection), each a deep copy of the first node as it was, and changes no existing node |
| Cloning.AfterAndPush | pablo.js:619-621 | the copies are inserted with `after` and then appended to the collection, unless the insertion raises. When nothing raises they stand, reversed, after the last node with a parent |
| Cloning.AfterNew | pablo.js:619 | `after(duplicates)` is the shared-set insertion `Manipulated`, and, when it does not raise, it leaves the copies reversed after the last target with a parent |
| Cloning.AfterLastParented | pablo.js:619 | where `after` inserts one new set at every target, the set ends up, reversed, behind the last target with a parent |
| Cloning.PlacedAfterKept | pablo.js:613-619 | the copying rounds move no existing node, so the placement holds against the tree `duplicate` started from |
| Cloning.DuplicateOnce | pablo.js:614-616 | each round appends exactly one node to the duplicates, a deep copy of the first node as it was before the round (nothing for an empty collection). The tree stays valid, no existing node changes, and the earlier copies stay copies |
| Cloning.CopiesGrow | pablo.js:615 | the copies of earlier rounds stay copies of the first node, and the new one joins them |
| Dom.SetAttributeNS | pablo.js:674 | fails exactly on a namespace error. Otherwise only the node's attribute list changes, by `UpdateAttrs` |
| Dom.UpdateAttrs | pablo.js:674 | after writing (namespace, local name), looking that pair up gives the value, and every other pair reads as before |
| Dom.RemoveAttributeNS | pablo.js:740 | only the node's attribute list changes, and with distinct attribute names the (namespace, local name) pair is absent afterwards |
| Dom.SplitQualifiedName | pablo.js:643-651 | splits at the first colon: the prefix holds no colon and the parts rejoin to the name |
| Attributes.NsOf | pablo.js:1041-1044 | `Pablo.ns` knows exactly `svg` and `xlink`, with their URIs |
| Attributes.AttrGet | pablo.js:633-652 | the getter on an empty collection gives undefined, and it raises exactly when the first node is not an element |
| Attributes.PropNs | pablo.js:667-671 | a prefixed property takes its prefix's namespace. A plain one keeps the namespace carried from before |
| Attributes.SetProps | pablo.js:662-676 | the setter on one node changes only that node's attributes, changes nothing without properties, and raises `TypeError` exactly when there are properties and the node is not an element |
| Attributes.SetEach | pablo.js:661-677 | the setter over the collection changes only attribute lists, and only those of the collection |
| Attributes.SetAttr | pablo.js:654-677 | the loop computes `SetEach`, starting with no namespace |
| Attributes.SetOn | pablo.js:662-676 | the property loop computes `SetProps` |
| Attributes.NamespaceLeak | pablo.js:670-674 | as written, a plain name after an `xlink:` one is set in the XLink namespace |
| Attributes.PlainThenXlink | pablo.js:670-674 | an `xlink:` property leaves the XLink namespace carried to the next node |
| Attributes.NamespaceLeakAcrossNodes | pablo.js:661-677 | on the second node, a plain name is set in the XLink namespace carried over from the first |
| Attributes.SetPropsIntended | pablo.js:670-674 | the intended setter changes only that node and raises exactly on a non-element |
| Attributes.NoNamespaceLeak | pablo.js:670-674 | the intended setter puts the plain name in no namespace |
| Attributes.OnePropAgrees | pablo.js:664-674 | with one property, the setter as written and the intended one agree |
| Attributes.SetThenGet | pablo.js:626-679 | `attr(q, v)` then `attr(q)` gives `getValue(v)` of the first node, for plain, `svg:` and `xlink:` names |
| Attributes.PlainSetAt | pablo.js:664-674 | writing a plain name to an element raises nothing, carries no namespace on, and stores `getValue(value, el, i)` for that node and index |
| Attributes.SetEachReads | pablo.js:661-677 | `attr(name, value)` with a plain name: every element of the collection reads back its own `getValue(value, el, i)`, so a function is applied per node and index and an array gives entry i |
| Attributes.PlainReadBack | pablo.js:674 | setting a plain name on an element reads back the value with `getAttribute` |
| Attributes.OtherNodeReads | pablo.js:661-677 | a change confined to one node leaves every other node's attributes, kind and reads as they were |
| Attributes.RemoveEach | pablo.js:738-741 | `removeAttr` changes only the collection's attribute lists, and raises exactly when some node is not an element |
| Attributes.RemoveAttr | pablo.js:729-742 | the loop computes `RemoveEach` |
| Attributes.RemoveThenGet | pablo.js:729-742 | after `removeAttr(q)`, `attr(q)` gives undefined |
| Attributes.NameMap | pablo.js:92-103 | the table has exactly the qualified names of the attributes as keys |
| Attributes.AttributeTable | pablo.js:629-631 | `attr()` on an empty collection is `{}`, and it raises exactly when the first node is not an element |
| Attributes.GetAttributes | pablo.js:92-103 | the loop computes the table |
| Attributes.TableAgreesWithGetter | pablo.js:92-103 | each entry of the table is what `getAttribute` returns for that name |
| Transforms.Compose | pablo.js:701-725 | an empty or absent transform becomes exactly `name(value)` |
| Transforms.ComposeTwice | pablo.js:699-723 | a second call with the same name overrides the first, whatever came before |
| Transforms.ComposeIdempotent | pablo.js:699-723 | repeating a call changes nothing |
| Transforms.RewriteFound | pablo.js:704-715 | when the function is present, only the text from its name to the next `)` is replaced |
| Transforms.FoundAppended | pablo.js:719-720 | when the function is absent, it is appended after a space and is then found there |
| Transforms.ArgumentsSplitBack | pablo.js:691-693 | extra arguments are joined with single spaces, and splitting gives them back |
| Transforms.TransformOn | pablo.js:695-724 | one node's step changes only that node's attributes |
| Transforms.TransformEach | pablo.js:695-724 | only the collection's attribute lists change, and the result is an error exactly when some node is not an element |
| Transforms.Transform | pablo.js:689-727 | the loop computes `TransformEach` |
| Transforms.TransformReads | pablo.js:695-724 | each element's `transform` afterwards is `Compose` of its old value with the function name and that node's value |
| Transforms.TransformReadBack | pablo.js:725 | the composed text written as `transform` reads back unchanged |
| Transforms.ComposeFound | pablo.js:704-715 | when the function is present, the result is the text before it, the new call, and the text after its `)` |
| Transforms.TwiceOnEmpty | pablo.js:699-725 | a transform that is exactly one call is replaced by the new call of the same name |
| Transforms.TwiceWhenFound | pablo.js:704-715 | when the function was present, a second call overrides the first |
| Transforms.TwiceWhenAppended | pablo.js:719-720 | when the function was appended, a second call overrides the first |
| Classes.NewClass | pablo.js:952-991 | `addClass` writes exactly when the class is absent, `removeClass` exactly when it is present, and `toggleClass` always |
| Classes.StripClass | pablo.js:966-975 | without a match the class string is unchanged, and stripping never lengthens it |
| Classes.AddThenHas | pablo.js:952-963 | after `addClass(c)`, `hasClass(c)` holds |
| Classes.AddIdempotent | pablo.js:952-963 | `addClass` is idempotent |
| Classes.RemoveAfterAdd | pablo.js:952-978 | `removeClass(c)` after `addClass(c)` restores a space-separated string that lacked `c` (a missing attribute becomes empty) |
| Classes.RemoveFirstOnly | pablo.js:965-978 | `removeClass` strips only the first occurrence |
| Classes.ToggleTwice | pablo.js:980-991 | `toggleClass` adds an absent class, and toggling twice restores the string |
| Classes.HasClassFrom | pablo.js:942-950 | `hasClass` is false exactly when every node is an element without the token, true only when some element has it, and raises `TypeError` only when some node is not an element |
| Classes.HasClass | pablo.js:942-950 | the loop computes `HasClassFrom` |
| Classes.ClassOn | pablo.js:952-991 | one node's step changes only that node and raises exactly on a non-element |
| Classes.ClassEach | pablo.js:952-991 | only the collection's attribute lists change |
| Classes.ChangeClass | pablo.js:952-991 | the loop computes `ClassEach` |
| Classes.ClassReads | pablo.js:952-991 | each node's class string afterwards is `ClassAfter` of its old one |
| Classes.AddClassThenHasClass | pablo.js:942-963 | after `addClass(c)` on a collection of elements, `hasClass(c)` is true |
| Css.PrefixTable | pablo.js:206-216 | the prefixed styles object keeps its keys distinct |
| Css.PrefixTableLookup | pablo.js:206-216 | each key of the object holds the value of the last style written under it, or its old value when none was |
| Css.WrittenOwn | pablo.js:207-209 | every vendor-prefixed name of a style holds that style's value unless a later style writes the same name |
| Css.NotWritten | pablo.js:206-216 | names no style produces are absent |
| Css.TableRules | pablo.js:202-217 | with a styles object the value argument is ignored, each key holds what was written under it, and the keys are distinct |
| Css.CssPrefix | pablo.js:202-235 | no styles give undefined, and a property name gives a string |
| Css.NamesListed | pablo.js:224-226 | `cssPrefix(prop)` is the prefixed names joined by commas |
| Css.RulesListed | pablo.js:229-232 | `cssPrefix(prop, value)` is the prefixed rules concatenated |
| Css.JoinSuffixed | pablo.js:225 | `join(x + sep) + x` equals joining the suffixed parts |
| Css.HyphensToCamelCase | pablo.js:237-246 | never longer than its input |
| Css.CamelCaseClean | pablo.js:238-246 | the result has no hyphen followed by a lower-case letter |
| Css.CamelCaseKeeps | pablo.js:238-246 | a string without such a pair is unchanged |
| Css.CamelCaseIdempotent | pablo.js:238-246 | converting twice equals converting once |
| Css.CamelCaseSplit | pablo.js:238-246 | the conversion distributes over a split after a clean prefix |
| Events.EventTypes | pablo.js:812-819 | always at least one type |
| Events.EventTypesJoin | pablo.js:812-819 | the types, joined with spaces, give back the argument |
| Events.EventTypesSeveral | pablo.js:812-819 | there are several types exactly when the first space is not at index 0 |
| Events.EventTypesPlain | pablo.js:812-814 | when split, no type holds a space |
| Creation.CreatePablo | pablo.js:344-353 | a falsy value gives an empty collection and leaves the tree alone. Otherwise it is a duplicate-free collection of addable nodes, in a valid tree that is only extended |
| Creation.SelectPablo | pablo.js:1014-1021 | the query result is a duplicate-free collection of addable nodes, and the tree stays valid and only extended |
| Creation.Pablo | pablo.js:1028-1035 | every call yields a duplicate-free collection of addable nodes in a valid, only extended tree |
| Creation.ToPablo | pablo.js:140-145 | a collection is passed through, unchanged without attributes. Anything else goes to `Pablo` |
| Creation.PabloWraps | pablo.js:1028-1035 | a node or duplicate-free collection without attributes is wrapped as it is |
| Creation.PabloQueries | pablo.js:1028-1035 | a non-empty string without attributes is a document query |
| Creation.PabloSelects | pablo.js:1014-1021 | that query holds exactly the matching nodes below the document, with no duplicates, and changes nothing |
| Creation.SelectQueries | pablo.js:1014-1018 | `selectPablo` of a non-empty string is the document query and changes nothing |
| Creation.PabloCreates | pablo.js:1028-1035 | a string with an attributes object creates one fresh SVG element of that tag |
| Dom.DescendantsExactly | pablo.js:503 | the descendants are exactly the nodes below the given one |
| Dom.QuerySelectorAllExactly | pablo.js:503 | `querySelectorAll` holds exactly the matching descendants |
| Dom.ClassTokens | pablo.js:1017 | a class selector looks for its name among the pieces of the `class` attribute cut at ASCII white space, and no piece holds white space |
| Dom.ClassTokensSpaced | pablo.js:1017 | when spaces are the only white space, those pieces are the split at `' '` that `addClass` writes |
| Dom.TabSeparates | pablo.js:1017 | a tab separates classes as a space does |
| Dom.ParseTagClass | pablo.js:1017 | `tag.class` parses as a compound of type and class |
| Dom.ParseIdClass | pablo.js:1017 | `#id.class` parses as a compound of id and class |
| Dom.ParseAttrEquals | pablo.js:1017 | `[a=v]` parses as an attribute-equals selector |
| Dom.OwnerSvgElement | pablo.js:887-888 | for an SVG element, the nearest `<svg>` ancestor: every other `<svg>` ancestor lies above it. Absent exactly for a node that is not an SVG element and for an outermost `<svg>` |
| Dom.NearestSvgAncestor | pablo.js:887 | an `<svg>` ancestor with every other `<svg>` ancestor above it. Absent exactly when no ancestor is an `<svg>` element |
| Dom.ViewportElement | pablo.js:885-886 | for an SVG element, the nearest `<svg>` ancestor. Absent exactly for a node that is not an SVG element and for an outermost `<svg>` |
| Dom.FirstElementFrom | pablo.js:883-884 | `nextElementSibling`: the first element at or after a position, and none exactly when no element follows |
| Dom.LastElementBefore | pablo.js:881-882 | `previousElementSibling`: the last element before a position, and none exactly when no element precedes |
| Strings.IndexOf | pablo.js:700 | the first occurrence of the pattern, or -1 when there is none |
| Strings.Split | pablo.js:815 | `split` yields at least one part, and no part holds the separator |
| Strings.SplitJoin | pablo.js:813 | splitting a join of separator-free parts gives them back |
| Strings.JoinSplit | pablo.js:813 | joining a split gives back the string |

## Left out

- `selectPablo`'s `context` argument (pablo.js:1014-1016) is not modelled. Queries always start at the document.
- `relations` with a function selector is not modelled. Selectors are strings; a callback is taken only by `some`, `every` and `select`.
- Dom.CreateElementNS never raises. The host's `InvalidCharacterError` for an invalid tag name is not modelled.
- Collections.Eq and Collections.Slice take integer indices only. Non-integer and NaN arguments are not modelled.
- Cloning.Repeats takes an integer count or none. A fractional count, which never reaches zero in `while (repeats--)`, is not modelled.
- Cloning.Duplicate states the kinds of the pushed copies as they end up, not their whole subtrees. `MakeCopies` and `DuplicateOnce` state that each copy is a deep copy of the first node when it is made, but the model does not restate that after `after` has moved the copies.
- Dom.ViewportElement is taken to be the nearest `<svg>` ancestor. The host takes the nearest ancestor that establishes a viewport, which can also be another element, such as an instanced `<symbol>`. That is not modelled.
- Dom.SetAttributeNS raises only the namespace errors. The host also raises `InvalidCharacterError` when the qualified name is not a valid XML name, as in `attr('', v)` or `attr('a b', v)`. The model writes the value there.
- Attributes.PlainSetAt, Attributes.SetThenGet, Attributes.PlainReadBack and Attributes.SetEachReads therefore hold in the host only for names that are valid XML names.
- Dom.GetAttribute matches a name exactly. In an HTML document the host lowercases the name given to `getAttribute`, and the tag name in a selector, for elements in the HTML namespace. The model does not.
- Attributes.SetThenGet, Attributes.PlainReadBack and Attributes.SetEachReads therefore hold in the host for SVG elements, which are the elements this library creates. On HTML elements they hold only for lowercase names.
- Dom.ParseSelector understands `*`, a tag name, `.class`, `#id`, `[attr]` and `[attr=value]`, and compounds of them. It has no combinators, pseudo-classes or selector lists, and never raises the host's `SyntaxError`.
- Classes.StripClass matches the class name literally. The source builds a regular expression from the unescaped name, so names holding metacharacters behave differently there, and an invalid pattern raises `SyntaxError`.
- `sort` (pablo.js:424-427) hands the array and a caller's comparator to `Array.prototype.sort`. Its order is the host's and is not modelled. `reverse` is modelled as `Collections.Collection.ReverseInPlace`.
- `each`, `map` (other than the `clone` map), `toArray`, `size`, `get` and the alias methods (pablo.js:893-898) are plain JavaScript array delegation. The loops of the model stand in for `each`.
- `pluck` (pablo.js:683-687) is a map of the `attr` getter over single-node collections, which `AttrGet` already states.
- `content`, `css` and the `cssPrefix` method (pablo.js:744-800) write `textContent` and `CSSStyleDeclaration` on the host. Only the pure `cssPrefix` string function is modelled.
- DOM events (pablo.js:809-862) are left out: listener registration and dispatch belong to the host's event loop. Only the splitting of a type list is modelled.
- Capability detection and the native `classList` strategy (pablo.js:37-57, pablo.js:907-936) are pure host delegation.
- Per-tag method generation, `template` and `extend` (pablo.js:66-86, pablo.js:1075-1116) are JavaScript prototype plumbing.
- Attributes.GetValue: values are strings, a list of strings or a function of (node, index). A `null` or non-string value, which the host converts to text, is not modelled, and neither is the `this` a function is called with.
- The application built on the library (`mindmap.js`, `mindmap-paths-centre.js`, the `js/` drawing prototypes, `mindmap-template.js` and `extras/`) is not part of this model. It consists of UI handlers, floating-point layout and local storage.

## Findings

| source | as written | input that shows it | evidently intended | confidence | as-written member | corrected member |
|---|---|---|---|---|---|---|
| pablo.js:523-526 | `empty()` removes `this.children()`. `children()` pushes each `childNodes` entry, and a text node is array-like with no indexed entries, so it contributes nothing | a `<text>` element whose child is a text node: after `empty()` the text node is still its child | every child node is removed | not executed | Manipulation.EmptyKeepsText | Manipulation.EmptiedEmpties |
| pablo.js:627-674 | `nsURI` is a variable of the whole `attr` call. A plain property after a prefixed one, on the same node or the next, is written in the prefix's namespace | `attr({'xlink:href': '#a', width: 1})`: `width` is set in the XLink namespace, so `getAttributeNS(null, 'width')` sees nothing and SVG rendering ignores the attribute. `removeAttr('width')` leaves it in place, because it calls `removeAttributeNS(null, 'width')` (pablo.js:740) | each property's namespace comes from its own name only | not executed | Attributes.NamespaceLeak | Attributes.NoNamespaceLeak |
