# treedesk-rs task forest, in Dafny

treedesk-rs keeps a to-do list as a forest of tasks. Each task has a
numeric id, a title, a done flag and an ordered list of subtasks. The forest
keeps three things:

- an ordered list of top-level tasks;
- an index from id to task;
- a counter that hands out ids, starting at 1.

Its operations are:

- create an empty forest;
- add a top-level task;
- add a subtask under an existing task, which fails when the parent id is unknown;
- toggle a task's done flag;
- look a task up by id;
- print the forest as an indented text listing.

The model follows `src/tree.rs`. The source shares each node through
reference-counted cells: the root list, the parent's child list and the
index all hold the same node. The model keeps every node once, in an arena
(`index: map<nat, Node>`). The root list and the child lists hold ids, and
every operation is a pure function from the old forest to the new one plus
the operation's result.

Modules:

- `Decimal` (decimal.dfy): the decimal text of an id, and reading it back.
- `Forest` (forest.dfy): the data model and the operations `Empty`,
  `AllocId`, `AddRoot`, `AddChild`, `Toggle` and `Get`, with the
  structural invariant `WellFormed`.
- `Walk` (walk.dfy): the pre-order walk that the printer follows. It also
  defines the full invariant `Valid`: the walk from the roots meets every
  indexed node exactly once and nothing else. It proves that the index then
  holds exactly the reachable nodes (`ReachableIffIndexed`). It also proves
  that every node has exactly one owner, either one slot in the root list
  or one slot in one node's child list (`SingleOwner`). Every operation
  preserves `Valid`.
- `Shape` (shape.dfy): what the indentation of the walk says. Siblings
  appear in insertion order, and every indented entry's parent is the
  closest shallower entry above it.
- `Splice` (splice.dfy): where `add_child` puts the new node in the walk.
  It goes directly after the last node of the parent's existing subtree,
  one level below the parent, and nothing else in the walk moves.
- `Render` (render.dfy): the listing as a sequence of lines, plus a parser
  for those lines. The model proves the round trip in both directions,
  proves that the listing has exactly one line (one `writeln!`) per node,
  and shows how each operation changes the listing.
- `Session` (session.dfy): a run of commands, as the demo program issues
  them. It shows that ids are dense and handed out in order, that `Valid`
  holds throughout, and that the listing never loses a node.

`src/tree.rs` has no parent links, no delete, no move and no done
propagation. `Toggle` flips exactly one node.

Each element of the listing is the text of one `writeln!` call, called a
line below. A title that itself contains a line break prints that one
element over several lines of output.

## Model

| member | source | states |
|---|---|---|
| Forest.Empty | src/tree.rs:39-45 | A new forest has no roots, an empty index and a counter at 1, and it is well formed. |
| Forest.AllocId | src/tree.rs:121-126 | The id handed out is the counter's old value, the counter advances by exactly one, and nothing else changes. In a well-formed forest the id is fresh and above every indexed id. |
| Forest.AddRoot | src/tree.rs:48-56 | The new id comes from the counter, which advances by one. The id is appended to the root list and added to the index as an open leaf with the given title. No existing node changes, and well-formedness is kept. |
| Forest.AddChild | src/tree.rs:59-69 | An unknown parent yields None and the forest unchanged, counter included. A known parent yields Some(counter). The counter advances by one and the root list is untouched. The parent's child list gains the new id at its end, the new id is indexed as an open leaf, no other node changes, and well-formedness is kept. |
| Forest.Toggle | src/tree.rs:72-81 | Reports true exactly when the id is indexed. Only that node's done flag flips: no parent or child changes, no ids are added or removed, and the root list and counter stay as they were. An unknown id changes nothing. |
| Forest.Get | src/tree.rs:84-86 | Returns a node exactly when the id is indexed, and that node is the indexed one. |
| Forest.ToggleTwice | src/tree.rs:72-81 | Toggling the same id twice restores the forest and reports whether the id was found. |
| Forest.GetAfterAddRoot | src/tree.rs:48-56 | After adding a root, looking up the new id returns a fresh open leaf. Every other id looks up as before. |
| Forest.GetAfterAddChild | src/tree.rs:59-69 | After adding a child, the new id looks up as a fresh leaf and the parent shows the new id as its last child. Every other id looks up as before. |
| Forest.GetAfterToggle | src/tree.rs:72-86 | After a toggle, only the toggled id looks up differently, with its done flag flipped. |
| Walk.OutlineBounds | src/tree.rs:97-118 | Every node the recursive printer visits is indexed and lies at or below the depth it started from. |
| Walk.OutlineSameShape | src/tree.rs:89-118 | What the printer visits depends only on the child lists, never on titles or done flags. |
| Walk.EmptyValid | src/tree.rs:39-45 | A new forest satisfies the invariant and prints nothing. |
| Walk.AddRootValid | src/tree.rs:48-56 | Adding a root keeps the invariant, and the printer then visits the old forest followed by the new root. |
| Walk.AddChildValid | src/tree.rs:59-69 | Adding a child keeps the invariant: the new node is reachable through its parent, once, and every other node is still reachable exactly once. |
| Walk.ToggleValid | src/tree.rs:72-81 | A toggle keeps the invariant and does not change what the printer visits, or in what order. |
| Walk.ValidWalk | src/tree.rs:89-118 | In a valid forest the printer visits as many nodes as the index holds. Every visited node is indexed, every indexed node is visited, and no node is visited twice. |
| Walk.SingleOwner | src/tree.rs:30-34 | In a valid forest every indexed node is a root or a child of some node. No id repeats in the root list or in one child list, no child is also a root, and two nodes that list the same child are the same node. So each node has exactly one owner. |
| Walk.ReachableIffIndexed | src/tree.rs:30-34 | In a valid forest an id is in the index exactly when a path of child links from some root reaches it. |
| Shape.RootsInOrder | src/tree.rs:89-95 | The unindented entries of the printout are the roots, in insertion order. |
| Shape.ChildrenInOrder | src/tree.rs:113-115 | Within a node's printout, the entries one level deeper are its children, in insertion order. |
| Shape.ForestParents | src/tree.rs:97-118 | Every indented entry of the printout is a child of the nearest entry above it that is one level shallower. |
| Decimal.ToNatFromNat | src/tree.rs:105-111 | The decimal text printed for an id reads back as that id. |
| Decimal.FromNatToNat | src/tree.rs:105-111 | Any canonical decimal text, with no leading zero, is what is printed for the number it denotes. |
| Render.SplitJoin | src/tree.rs:105-111 | Splitting `title (id: digits)` gives back the same title and digit text, for any title and any canonical digit text. |
| Render.JoinSplit | src/tree.rs:105-111 | Any text that splits into a title and digits is exactly `title (id: digits)`. |
| Render.LabelRoundTrip | src/tree.rs:105-111 | The text `title (id: N)` reads back as the same title and id, for any title, including titles that contain digits, brackets or ` (id: `. |
| Render.LabelInverse | src/tree.rs:105-111 | Any text the label reader accepts is exactly the label written for what it read. |
| Render.ParseFormat | src/tree.rs:97-111 | Every printed line (indentation, marker, title and id) reads back as the depth, done flag, title and id it was written for. |
| Render.FormatParse | src/tree.rs:97-111 | Any line the reader accepts is exactly the line printed for what it read, so each node has exactly one spelling. |
| Render.PrettyReadsBack | src/tree.rs:89-118 | Line j of the listing reads back as the j-th node of the pre-order walk, at its depth and with its done flag and title. |
| Render.PrettyListsEachNodeOnce | src/tree.rs:89-118 | A valid forest prints exactly one line (one `writeln!`) per indexed node. Every line names an indexed node, every indexed node is named by some line, and no two lines name the same node. |
| Render.PrettyEmpty | src/tree.rs:89-95 | A new forest prints no lines. |
| Render.PrettyAfterAddRoot | src/tree.rs:48-56 | Adding a root appends one unindented open line to the listing and leaves every earlier line as it was. |
| Render.PrettyAfterToggle | src/tree.rs:72-81 | A toggle rewrites only the line of the toggled node, with its marker flipped. Every other line, and the line count, stay the same. |
| Splice.OutlineSplice | src/tree.rs:97-118 | After a child id is appended to one parent's child list, a printer walk that never meets that parent is unchanged. A walk that meets it once gains exactly one entry for the new leaf. That entry sits one level below the parent, directly after the parent's subtree as it was, and no other entry moves. |
| Splice.AddChildWalk | src/tree.rs:59-69 | In a valid forest, adding a child under a known parent inserts the new node into the printer's walk directly after the parent's existing subtree, one level below the parent. Every other entry keeps its order and depth. |
| Render.PrettySplice | src/tree.rs:97-111 | When a walk gains one leaf and every other node keeps its done flag, title and id, the listing gains exactly that leaf's line at the same position. No other line changes. |
| Render.PrettyAfterAddChild | src/tree.rs:59-69 | Under an unknown parent the listing is unchanged. Under a known parent, one open line for the new node is inserted one level deeper than the parent's line. It goes directly after the last line of the parent's existing subtree, and every other line keeps its text and order. |
| Render.LineExampleRoot | src/tree.rs:100-111 | A root task prints with no indentation and an open marker: `[ ] Inbox (id: 1)`. |
| Session.Apply | src/tree.rs:48-81 | One operation allocates at most one id, which is the counter's value. The index grows by exactly the ids allocated, and well-formedness is kept. |
| Session.Replay | src/tree.rs:48-81 | Over any run, ids are handed out consecutively from the counter, the counter ends at the start plus the number handed out, and the index grows by exactly those ids. |
| Session.ReplayValid | src/tree.rs:48-81 | Every run of operations keeps the invariant. |
| Session.ReplayFromEmptyIds | src/tree.rs:39-45 | From a new forest, the ids handed out are 1, 2, 3, ... in order, and the index holds exactly the ids below the counter. |
| Session.ReplayFromEmptyListing | src/tree.rs:89-118 | From a new forest, after any run, the listing has exactly one line for every id handed out. |

## Left out

- AllocId: `next_id` is a `u32` in the source, and adding 1 to `u32::MAX` panics in a debug build and wraps to 0 in a release build. The model's counter is unbounded, so it never overflows.
- The `Rc<RefCell<…>>` sharing is replaced by an id arena. Aliasing, borrow failures and reference counts are not modelled.
- The `fmt::Formatter` output is a sequence of lines. The trailing newline after each line and `fmt::Error` propagation are not modelled, and neither is the `Display` impl (src/tree.rs:130-134), which only forwards to `fmt_pretty`.
- Forest.Get: returns the node value, not a shared handle. In the source `get` returns an `Rc<RefCell<Node>>` (src/tree.rs:83-86) whose `children` field is public (src/tree.rs:16). A caller can therefore push onto a child list through that handle and break the invariant that the index holds exactly the reachable nodes. Walk.AddRootValid, Walk.AddChildValid, Walk.ToggleValid, Session.ReplayValid and Walk.SingleOwner all assume that nobody writes through such a handle.
- Render.PrettyListsEachNodeOnce: counts one line per node, where a line is one `writeln!` call. The title is written as it is, so a title containing a line break prints that node over several lines of output.
- Deleting or moving subtrees, parent back-references and done propagation do not exist in `src/tree.rs`, so they are not modelled.
- `Forest.WellFormed` requires every child id to be above its parent's id. The source never checks this; it holds because a child is always allocated after its parent exists. The model uses it to rule out cycles and to bound the walk's recursion, through the ghost `above` parameter of `Walk.Outline`.
- src/main.rs is a demo with no logic of its own. `Session` models runs of commands like the demo's, but not the printing to standard output.
