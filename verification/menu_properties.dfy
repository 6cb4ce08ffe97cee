/** Properties of the menu tree builder over whole trees: the Back policy
    holds at every depth, and the tree loses nothing of its spec. */
module MenuProperties {
  import opened Values
  import opened Menu

  /** The Back policy, at this level and every level below: the top-level
      menu holds no Back item; a submenu holds exactly one Back item, as its
      last child; every nested level is a submenu. */
  ghost predicate WellFormed<A>(l: Level<A>) {
    && (l.kind.ModeRoot? ==> Back !in l.items)
    && (l.kind.Submenu? ==>
          && |l.items| >= 1
          && l.items[|l.items| - 1] == Back
          && Back !in l.items[..|l.items| - 1])
    && forall i :: 0 <= i < |l.items| && l.items[i].Sub? ==>
         l.items[i].level.kind.Submenu? && WellFormed(l.items[i].level)
  }

  /** The spec a list of children was built from: items become action
      entries, nested levels become submenu entries titled with the level's
      title, and Back items are dropped. */
  function SpecOf<A>(items: seq<Node<A>>): Spec<A>
    decreases items
  {
    if items == [] then [] else EntriesOf(items[0]) + SpecOf(items[1..])
  }

  /** The entries one child reads back as: none for Back, one otherwise. */
  function EntriesOf<A>(n: Node<A>): Spec<A>
    decreases n
  {
    match n
    case Back => []
    case Item(text, a) => [Entry(text, Action(a))]
    case Sub(l) => [Entry(TitleOf(l.kind), Nested(SpecOf(l.items)))]
  }

  /** The title of a level; the top-level menu has none. */
  function TitleOf(k: Kind): string {
    match k
    case ModeRoot => ""
    case Submenu(title) => title
  }

  /** The number of submenus a spec declares, at every depth. */
  function SubmenuCount<A>(spec: Spec<A>): nat {
    if spec == [] then 0
    else
      (match spec[0].target
       case Action(_) => 0
       case Nested(sub) => 1 + SubmenuCount(sub))
      + SubmenuCount(spec[1..])
  }

  /** The number of Back items in a list of children, at every depth. */
  function BackCount<A>(items: seq<Node<A>>): nat
    decreases items
  {
    if items == [] then 0 else NodeBackCount(items[0]) + BackCount(items[1..])
  }

  /** The number of Back items in one child, counting itself. */
  function NodeBackCount<A>(n: Node<A>): nat
    decreases n
  {
    match n
    case Back => 1
    case Item(_, _) => 0
    case Sub(l) => BackCount(l.items)
  }

  lemma {:induction false} SpecOfAppend<A>(xs: seq<Node<A>>, ys: seq<Node<A>>)
    ensures SpecOf(xs + ys) == SpecOf(xs) + SpecOf(ys)
    decreases |xs|
  {
    if xs == [] {
      assert xs + ys == ys;
    } else {
      assert (xs + ys)[1..] == xs[1..] + ys;
      SpecOfAppend(xs[1..], ys);
    }
  }

  lemma {:induction false} BackCountAppend<A>(xs: seq<Node<A>>, ys: seq<Node<A>>)
    ensures BackCount(xs + ys) == BackCount(xs) + BackCount(ys)
    decreases |xs|
  {
    if xs == [] {
      assert xs + ys == ys;
    } else {
      assert (xs + ys)[1..] == xs[1..] + ys;
      BackCountAppend(xs[1..], ys);
    }
  }

  /** Children built one per entry read back as exactly those entries. */
  lemma {:induction false} SpecOfBuilt<A>(spec: Spec<A>, items: seq<Node<A>>)
    requires |items| == |spec|
    requires forall i :: 0 <= i < |spec| ==> items[i] == BuildEntry(spec[i])
    ensures SpecOf(items) == spec
    decreases spec
  {
    if spec != [] {
      var e := spec[0];
      match e.target {
        case Action(a) =>
          assert EntriesOf(items[0]) == [e];
        case Nested(sub) =>
          var l := items[0].level;
          assert l.items == l.items[..|sub|] + [Back];
          assert SpecOf<A>([Back]) == [];
          SpecOfAppend(l.items[..|sub|], [Back]);
          SpecOfBuilt(sub, l.items[..|sub|]);
          assert SpecOf(l.items) == sub;
          assert EntriesOf(items[0]) == [Entry(e.text, Nested(sub))];
      }
      SpecOfBuilt(spec[1..], items[1..]);
      assert spec == [e] + spec[1..];
    }
  }

  /** Round trip: a submenu built from `spec` reads back as `spec` and keeps
      its title, so the builder drops, adds (besides Back) and reorders
      nothing. */
  lemma SubmenuRoundTrip<A>(text: string, spec: Spec<A>)
    ensures var l := WalkMenu(spec, NewSubmenu(text));
      TitleOf(l.kind) == text && SpecOf(l.items) == spec
  {
    var l := WalkMenu(spec, NewSubmenu<A>(text));
    assert l.items == l.items[..|spec|] + [Back];
    SpecOfAppend(l.items[..|spec|], [Back]);
    SpecOfBuilt(spec, l.items[..|spec|]);
  }

  /** Round trip: the top-level menu built from a spec reads back as that
      spec (an empty spec included). */
  lemma MenuRoundTrip<A>(spec: Spec<A>)
    ensures SpecOf(GetMenuItems(Some(spec)).items) == spec
  {
    SpecOfBuilt(spec, GetMenuItems(Some(spec)).items);
  }

  /** The builder is injective: two specs that give the same menu are the
      same spec. */
  lemma BuildInjective<A>(s1: Spec<A>, s2: Spec<A>)
    requires GetMenuItems(Some(s1)) == GetMenuItems(Some(s2))
    ensures s1 == s2
  {
    MenuRoundTrip(s1);
    MenuRoundTrip(s2);
  }

  /** Children built one per entry satisfy the Back policy at every level
      below them, and none of them is a Back item. */
  lemma {:induction false} BuiltChildrenWellFormed<A>(spec: Spec<A>, items: seq<Node<A>>)
    requires |items| == |spec|
    requires forall i :: 0 <= i < |spec| ==> items[i] == BuildEntry(spec[i])
    ensures Back !in items
    ensures forall i :: 0 <= i < |items| && items[i].Sub? ==>
      items[i].level.kind.Submenu? && WellFormed(items[i].level)
    decreases spec
  {
    forall i | 0 <= i < |items| && items[i].Sub?
      ensures items[i].level.kind.Submenu? && WellFormed(items[i].level)
    {
      var sub := spec[i].target.entries;
      var l := items[i].level;
      assert spec[i] in spec;
      BuiltChildrenWellFormed(sub, l.items[..|sub|]);
    }
  }

  /** The Back policy holds in every built menu, at every depth: Back only
      ever closes submenus, never the top-level menu. */
  lemma BuiltMenuWellFormed<A>(menu: Option<Spec<A>>)
    ensures WellFormed(GetMenuItems(menu))
  {
    var r := GetMenuItems(menu);
    if menu.Some? {
      BuiltChildrenWellFormed(menu.value, r.items);
    }
  }

  /** Children built one per entry contain one Back item per declared
      submenu, counted at every depth. */
  lemma {:induction false} BuiltBackCount<A>(spec: Spec<A>, items: seq<Node<A>>)
    requires |items| == |spec|
    requires forall i :: 0 <= i < |spec| ==> items[i] == BuildEntry(spec[i])
    ensures BackCount(items) == SubmenuCount(spec)
    decreases spec
  {
    if spec != [] {
      match spec[0].target {
        case Action(a) =>
        case Nested(sub) =>
          var l := items[0].level;
          assert l.items == l.items[..|sub|] + [Back];
          BackCountAppend(l.items[..|sub|], [Back]);
          BuiltBackCount(sub, l.items[..|sub|]);
      }
      BuiltBackCount(spec[1..], items[1..]);
    }
  }

  /** A built menu has exactly as many Back items as its spec has submenus:
      one per submenu and none for the top-level menu. */
  lemma MenuBackCount<A>(menu: Option<Spec<A>>)
    ensures BackCount(GetMenuItems(menu).items) == if menu.Some? then SubmenuCount(menu.value) else 0
  {
    if menu.Some? {
      BuiltBackCount(menu.value, GetMenuItems(menu).items);
    }
  }

  /** An entry whose target is an empty list gives a submenu holding only
      Back. Dafny sees it by unfolding the builder once; it is stated for the
      record, as the edge case of BuildEntry. */
  lemma EmptySubmenuHoldsOnlyBack<A>(text: string)
    ensures BuildEntry<A>(Entry(text, Nested([]))) == Sub(Level(Submenu(text), [Back]))
  {
  }

  /** The Settings submenu of the worked example: Volume, then Back. A
      stepping stone for PlaySettingsExample; Dafny sees it by unfolding the
      builder. */
  lemma SettingsSubmenu(volume: int)
    ensures BuildEntry(Entry("Settings", Nested([Entry("Volume", Action(volume))])))
         == Sub(Level(Submenu("Settings"), [Item("Volume", volume), Back]))
  {
  }

  /** A worked example: a Play item and a Settings submenu holding Volume. */
  lemma PlaySettingsExample(play: int, volume: int)
    ensures GetMenuItems(Some([
              Entry("Play", Action(play)),
              Entry("Settings", Nested([Entry("Volume", Action(volume))]))]))
         == Level(ModeRoot, [
              Item("Play", play),
              Sub(Level(Submenu("Settings"), [Item("Volume", volume), Back]))])
  {
    var settings := Entry("Settings", Nested([Entry("Volume", Action(volume))]));
    var spec := [Entry("Play", Action(play)), settings];
    SettingsSubmenu(volume);
    var r := GetMenuItems(Some(spec));
    assert |r.items| == 2 && r.kind == ModeRoot;
    assert r.items[0] == BuildEntry(spec[0]) == Item("Play", play);
    assert r.items[1] == BuildEntry(spec[1]) == BuildEntry(settings);
    assert r.items == [r.items[0], r.items[1]];
  }
}
