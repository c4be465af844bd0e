/**
 * The navigation synchroniser (src/App.tsx): a click on a nav item selects its
 * section, and the scroll-spy callback selects the section of the last
 * intersecting entry of a batch and moves the `active` mark to the nav items
 * whose data-section is that section. The rendered class name of each nav
 * item marks it when the active section equals its key.
 */
module Navigation {
  import opened Options

  /** The keys of the nav items, in document order, as written in the markup. */
  const NavKeys: seq<string> := ["hero", "about", "experience", "skills", "projects", "achievements", "contact"]

  /** The active section of a freshly mounted view. */
  const InitialSection: string := "hero"

  /** JavaScript truthiness of an attribute value: neither null nor the empty string. */
  predicate Truthy(a: Option<string>) {
    a.Some? && a.value != ""
  }

  /** One IntersectionObserver entry: whether its target intersects, and the target's id attribute. */
  datatype Entry = Entry(isIntersecting: bool, id: Option<string>)

  /** An entry the callback acts on: it intersects and its target has a non-empty id. */
  predicate Qualifies(e: Entry) {
    e.isIntersecting && Truthy(e.id)
  }

  /** The id of the last entry of a batch that the callback acts on, if any. */
  function LastQualifying(entries: seq<Entry>): (r: Option<string>)
    ensures r.Some? ==> r.value != ""
    decreases |entries|
  {
    if entries == [] then None
    else
      var e := entries[|entries| - 1];
      if Qualifies(e) then Some(e.id.value) else LastQualifying(entries[..|entries| - 1])
  }

  /** The batch selects id iff some qualifying entry carries id and no qualifying entry follows it. */
  lemma {:induction false} LastQualifyingSome(entries: seq<Entry>, id: string)
    ensures LastQualifying(entries) == Some(id) <==>
      exists k :: 0 <= k < |entries| && Qualifies(entries[k]) && entries[k].id == Some(id) &&
        forall j :: k < j < |entries| ==> !Qualifies(entries[j])
    decreases |entries|
  {
    if entries != [] {
      var n := |entries| - 1;
      var init := entries[..n];
      LastQualifyingSome(init, id);
      if Qualifies(entries[n]) {
        if LastQualifying(entries) == Some(id) {
          assert Qualifies(entries[n]) && entries[n].id == Some(id);
        }
      } else {
        if exists k :: 0 <= k < |entries| && Qualifies(entries[k]) && entries[k].id == Some(id) &&
            forall j :: k < j < |entries| ==> !Qualifies(entries[j]) {
          var k :| 0 <= k < |entries| && Qualifies(entries[k]) && entries[k].id == Some(id) &&
            forall j :: k < j < |entries| ==> !Qualifies(entries[j]);
          assert k < n && init[k] == entries[k];
          assert forall j :: k < j < |init| ==> init[j] == entries[j];
        }
        if LastQualifying(init) == Some(id) {
          var k :| 0 <= k < |init| && Qualifies(init[k]) && init[k].id == Some(id) &&
            forall j :: k < j < |init| ==> !Qualifies(init[j]);
          assert entries[k] == init[k];
          assert forall j :: k < j < |entries| ==> !Qualifies(entries[j]) by {
            forall j | k < j < |entries| ensures !Qualifies(entries[j]) {
              if j < n {
                assert entries[j] == init[j];
              }
            }
          }
        }
      }
    }
  }

  /** The batch selects nothing iff none of its entries qualifies. */
  lemma {:induction false} LastQualifyingNone(entries: seq<Entry>)
    ensures LastQualifying(entries) == None <==> forall k :: 0 <= k < |entries| ==> !Qualifies(entries[k])
    decreases |entries|
  {
    if entries != [] {
      var n := |entries| - 1;
      LastQualifyingNone(entries[..n]);
      assert forall k :: 0 <= k < n ==> entries[..n][k] == entries[k];
    }
  }

  /** Two batches delivered one after the other select what their concatenation selects. */
  lemma {:induction false} LastQualifyingConcat(a: seq<Entry>, b: seq<Entry>)
    ensures LastQualifying(a + b) == if LastQualifying(b).Some? then LastQualifying(b) else LastQualifying(a)
    decreases |b|
  {
    if b == [] {
      assert a + b == a;
    } else {
      var n := |b| - 1;
      assert (a + b)[..|a + b| - 1] == a + b[..n];
      assert (a + b)[|a + b| - 1] == b[n];
      LastQualifyingConcat(a, b[..n]);
    }
  }

  /** The mark of each nav item after highlighting id: set iff its data-section equals id. */
  function MarksFor(keys: seq<Option<string>>, id: string): (m: seq<bool>)
  {
    seq(|keys|, j requires 0 <= j < |keys| => keys[j] == Some(id))
  }

  /** The number of marked nav items. */
  function CountMarked(m: seq<bool>): nat
    decreases |m|
  {
    if m == [] then 0 else (if m[0] then 1 else 0) + CountMarked(m[1..])
  }

  /** The number of nav items marked for id is the number of nav items whose data-section is id. */
  lemma {:induction false} MarkedCount(keys: seq<Option<string>>, id: string)
    ensures CountMarked(MarksFor(keys, id)) == multiset(keys)[Some(id)]
    decreases |keys|
  {
    if keys != [] {
      MarkedCount(keys[1..], id);
      assert MarksFor(keys, id)[1..] == MarksFor(keys[1..], id);
      assert keys == [keys[0]] + keys[1..];
    }
  }

  /** No two nav items share a data-section. */
  predicate Distinct(keys: seq<Option<string>>) {
    forall a, b :: 0 <= a < b < |keys| ==> keys[a] != keys[b]
  }

  /** In a sequence without repetitions every value occurs at most once. */
  lemma {:induction false} DistinctOnce(keys: seq<Option<string>>, x: Option<string>)
    requires Distinct(keys)
    ensures multiset(keys)[x] == if x in keys then 1 else 0
    decreases |keys|
  {
    if keys != [] {
      DistinctOnce(keys[1..], x);
      assert keys == [keys[0]] + keys[1..];
      if x == keys[0] {
        assert x !in keys[1..] by {
          forall j | 0 <= j < |keys[1..]| ensures keys[1..][j] != x {
            assert keys[1..][j] == keys[j + 1];
          }
        }
      }
    }
  }

  /**
   * When the data-sections are distinct, highlighting id marks exactly one nav
   * item if id is among them and none otherwise.
   */
  lemma ExactlyOneMarked(keys: seq<Option<string>>, id: string)
    requires Distinct(keys)
    ensures Some(id) in keys ==> CountMarked(MarksFor(keys, id)) == 1
    ensures Some(id) !in keys ==> CountMarked(MarksFor(keys, id)) == 0
  {
    MarkedCount(keys, id);
    DistinctOnce(keys, Some(id));
  }

  /**
   * The class name rendered for the nav item with the given key: it is
   * "nav-item active" exactly when the active section is that key, and the
   * bare "nav-item " otherwise.
   */
  function ClassName(activeSection: string, key: string): (r: string)
    ensures r == "nav-item active" <==> activeSection == key
    ensures activeSection != key ==> r == "nav-item "
  {
    var r := "nav-item " + (if activeSection == key then "active" else "");
    assert activeSection != key ==> |r| != |"nav-item active"|;
    r
  }

  /** Whether the rendered class name carries the `active` mark. */
  predicate RenderedActive(activeSection: string, key: string) {
    ClassName(activeSection, key) == "nav-item active"
  }

  /**
   * The data-section attributes of the rendered nav items: one per key, none
   * missing or empty, and no two alike.
   */
  function NavAttributes(): (keys: seq<Option<string>>)
    ensures |keys| == |NavKeys|
    ensures Distinct(keys)
    ensures forall j :: 0 <= j < |keys| ==> Truthy(keys[j])
  {
    seq(|NavKeys|, j requires 0 <= j < |NavKeys| => Some(NavKeys[j]))
  }

  /** The marks the rendered class names give to the nav items. */
  function RenderedMarks(activeSection: string): seq<bool> {
    seq(|NavKeys|, j requires 0 <= j < |NavKeys| => RenderedActive(activeSection, NavKeys[j]))
  }

  /**
   * The rendered marks are the marks the scroll-spy writes for the same
   * section, and they mark exactly one nav item when that section is one of the
   * seven keys and none otherwise.
   */
  lemma RenderedMatchesHighlight(activeSection: string)
    ensures RenderedMarks(activeSection) == MarksFor(NavAttributes(), activeSection)
    ensures activeSection in NavKeys ==> CountMarked(RenderedMarks(activeSection)) == 1
    ensures activeSection !in NavKeys ==> CountMarked(RenderedMarks(activeSection)) == 0
  {
    var keys := NavAttributes();
    assert forall j :: 0 <= j < |keys| ==> keys[j] == Some(NavKeys[j]);
    assert RenderedMarks(activeSection) == MarksFor(keys, activeSection);
    assert activeSection in NavKeys <==> Some(activeSection) in keys by {
      if activeSection in NavKeys {
        var j :| 0 <= j < |NavKeys| && NavKeys[j] == activeSection;
        assert keys[j] == Some(activeSection);
      }
    }
    ExactlyOneMarked(keys, activeSection);
  }

  /** The freshly rendered page marks exactly the "hero" item. */
  lemma InitialRender()
    ensures CountMarked(RenderedMarks(InitialSection)) == 1
    ensures RenderedMarks(InitialSection)[0]
  {
    RenderedMatchesHighlight(InitialSection);
  }

  /**
   * The nav items as seen by the listeners: their data-section attributes, the
   * `active` mark in each one's class list, and the active section state.
   */
  class NavBar {
    const keys: seq<Option<string>>
    const marks: array<bool>
    var activeSection: string

    /** One mark per nav item. */
    predicate Shaped()
      reads this
    {
      marks.Length == |keys|
    }

    /** The marked nav items are exactly those whose data-section is the active section. */
    predicate Valid()
      reads this, marks
    {
      Shaped() && marks[..] == MarksFor(keys, activeSection)
    }

    /** The nav bar of a freshly mounted view: the initial render marks the "hero" item. */
    constructor (keys: seq<Option<string>>)
      ensures Valid() && fresh(marks)
      ensures this.keys == keys && activeSection == InitialSection
      ensures marks[..] == MarksFor(keys, InitialSection)
    {
      this.keys := keys;
      activeSection := InitialSection;
      marks := new bool[|keys|](j requires 0 <= j < |keys| => keys[j] == Some(InitialSection));
    }

    /**
     * A click on a nav item whose data-section is `section`: a non-empty value
     * becomes the active section; a missing or empty one changes nothing.
     * Setting the section re-renders the nav items' class names, which mark
     * the items whose key is the new section (see RenderedMatchesHighlight);
     * the marks are rewritten accordingly.
     */
    method Click(section: Option<string>)
      requires Valid()
      modifies this`activeSection, marks
      ensures Valid()
      ensures Truthy(section) ==> activeSection == section.value
      ensures !Truthy(section) ==> activeSection == old(activeSection) && marks[..] == old(marks[..])
    {
      if Truthy(section) {
        activeSection := section.value;
        Highlight(activeSection);
      }
    }

    /** Remove the mark from every nav item, then add it where data-section equals id. */
    method Highlight(id: string)
      requires Shaped()
      modifies marks
      ensures marks[..] == MarksFor(keys, id)
    {
      var j := 0;
      while j < marks.Length
        invariant 0 <= j <= marks.Length
        invariant forall k :: 0 <= k < j ==> marks[k] == (keys[k] == Some(id))
      {
        marks[j] := false;
        if keys[j] == Some(id) {
          marks[j] := true;
        }
        j := j + 1;
      }
    }

    /**
     * One IntersectionObserver callback: every qualifying entry, in order,
     * becomes the active section and is highlighted, so the last one wins; a
     * batch without a qualifying entry changes nothing.
     */
    method Observe(entries: seq<Entry>)
      requires Valid()
      modifies this`activeSection, marks
      ensures Valid()
      ensures LastQualifying(entries).Some? ==>
        activeSection == LastQualifying(entries).value &&
        marks[..] == MarksFor(keys, activeSection)
      ensures LastQualifying(entries).None? ==>
        activeSection == old(activeSection) && marks[..] == old(marks[..])
    {
      var i := 0;
      while i < |entries|
        invariant 0 <= i <= |entries|
        invariant LastQualifying(entries[..i]).Some? ==>
          activeSection == LastQualifying(entries[..i]).value &&
          marks[..] == MarksFor(keys, activeSection)
        invariant LastQualifying(entries[..i]).None? ==>
          activeSection == old(activeSection) && marks[..] == old(marks[..])
      {
        assert entries[..i + 1][..i] == entries[..i];
        var entry := entries[i];
        if entry.isIntersecting {
          var id := entry.id;
          if Truthy(id) {
            activeSection := id.value;
            Highlight(id.value);
          }
        }
        i := i + 1;
      }
      assert entries[..i] == entries;
    }
  }
}
