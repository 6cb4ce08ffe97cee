/** The menu tree builder of a radio mode. A mode declares its menu as an
    ordered list of `(text, target)` pairs; the builder turns it into a tree
    of menu levels whose children keep the declared order, and closes every
    submenu with a synthesized Back item. */
module Menu {
  import opened Values

  /** What a spec entry points at. A submenu spec (a target whose type is
      exactly `list`) is `Nested`; every other target, a tuple included, is
      an opaque action that is carried into its item unchanged. */
  datatype Target<A> = Action(action: A) | Nested(entries: seq<Entry<A>>)

  /** One `(text, target)` pair of a menu spec. */
  datatype Entry<A> = Entry(text: string, target: Target<A>)

  /** A menu spec: entries in display order. Labels need not be unique. */
  type Spec<A> = seq<Entry<A>>

  /** The kind of a menu level: the mode's own top-level menu
      (`RadioMenuMode`), which is not a submenu, or a submenu
      (`RadioSubmenu`) with its title. */
  datatype Kind = ModeRoot | Submenu(title: string)

  /** A menu level: its kind and its children in display order. */
  datatype Level<A> = Level(kind: Kind, items: seq<Node<A>>)

  /** A child of a menu level: an item carrying an action, the synthesized
      Back item, or a nested level. */
  datatype Node<A> = Item(text: string, action: A) | Back | Sub(level: Level<A>)

  /** A fresh, empty submenu titled `text` (`RadioSubmenu(text)`). */
  function NewSubmenu<A>(text: string): Level<A> {
    Level(Submenu(text), [])
  }

  /** A fresh, empty top-level menu for the mode (`RadioMenuMode(self)`). */
  function NewModeMenu<A>(): Level<A> {
    Level(ModeRoot, [])
  }

  /** `add_item`: appends one child after the existing ones. */
  function AddItem<A>(parent: Level<A>, node: Node<A>): Level<A> {
    Level(parent.kind, parent.items + [node])
  }

  /** The loop over the entries of `_walk_menu`: one built child per entry,
      appended after the children `parent` already has, in spec order. */
  function AddEntries<A>(spec: Spec<A>, parent: Level<A>): (r: Level<A>)
    ensures r.kind == parent.kind
    ensures |r.items| == |parent.items| + |spec|
    ensures r.items[..|parent.items|] == parent.items
    ensures forall i :: 0 <= i < |spec| ==> r.items[|parent.items| + i] == BuildEntry(spec[i])
    decreases spec, 0
  {
    if spec == [] then parent
    else AddEntries(spec[1..], AddItem(parent, BuildEntry(spec[0])))
  }

  /** `_walk_menu(menu, parent)`: the entries of `spec` are appended to
      `parent` in order; if `parent` is a submenu, one Back item follows
      them. The top-level menu never gets a Back item. */
  function WalkMenu<A>(spec: Spec<A>, parent: Level<A>): (r: Level<A>)
    ensures r.kind == parent.kind
    ensures |r.items| == |parent.items| + |spec| + (if parent.kind.Submenu? then 1 else 0)
    ensures r.items[..|parent.items|] == parent.items
    ensures forall i :: 0 <= i < |spec| ==> r.items[|parent.items| + i] == BuildEntry(spec[i])
    ensures parent.kind.Submenu? ==> r.items[|r.items| - 1] == Back
    decreases spec, 1
  {
    var filled := AddEntries(spec, parent);
    if parent.kind.Submenu? then AddItem(filled, Back) else filled
  }

  /** The body of the loop of `_walk_menu` for one entry: a list target is
      built into a submenu titled with the entry's text (its entries, then
      Back); any other target becomes an item with that text and action. */
  function BuildEntry<A>(e: Entry<A>): (r: Node<A>)
    ensures r != Back
    ensures e.target.Action? <==> r.Item?
    ensures e.target.Action? ==> r.text == e.text && r.action == e.target.action
    ensures e.target.Nested? ==>
      && r.Sub?
      && r.level.kind == Submenu(e.text)
      && |r.level.items| == |e.target.entries| + 1
      && r.level.items[|e.target.entries|] == Back
      && forall i :: 0 <= i < |e.target.entries| ==> r.level.items[i] == BuildEntry(e.target.entries[i])
    decreases e
  {
    match e.target
    case Action(a) => Item(e.text, a)
    case Nested(sub) => Sub(WalkMenu(sub, NewSubmenu(e.text)))
  }

  /** `_get_menu_items`: the mode's top-level menu built from its `menu`
      attribute. An absent (`None`) or empty menu yields the bare top-level
      menu; otherwise there is one child per entry, in order, and no Back. */
  function GetMenuItems<A>(menu: Option<Spec<A>>): (r: Level<A>)
    ensures r.kind == ModeRoot
    ensures menu.None? ==> r.items == []
    ensures menu.Some? ==> |r.items| == |menu.value|
    ensures menu.Some? ==> forall i :: 0 <= i < |menu.value| ==> r.items[i] == BuildEntry(menu.value[i])
    ensures Back !in r.items
  {
    var base := NewModeMenu();
    if menu.Some? && menu.value != [] then WalkMenu(menu.value, base) else base
  }
}
