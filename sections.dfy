/** The nav highlight and reveal state of `setupSectionObserver` in
    script/main.js. Nav links are numbered by their position in the page;
    `idToNav` maps a section id to the link whose href is `#` followed by that
    id. When a section becomes visible, every mapped link loses `active`,
    the link of that section (if any) gains it, and the section's fade-in
    elements gain `visible`, which nothing ever removes. The observer's
    geometry is abstracted to the entries it delivers. */
module Sections {
  import opened Wrappers

  /** The section id a link's href points at: the text after a leading `#`.
      A missing or empty href, or one not starting with `#`, points nowhere. */
  function AnchorId(href: Option<string>): Option<string> {
    match href
    case None => None
    case Some(h) => if |h| > 0 && h[0] == '#' then Some(h[1..]) else None
  }

  /** The id-to-link map built from the links' hrefs in page order; a later
      link with the same target replaces an earlier one. Every mapped link
      exists. */
  function LinkMap(hrefs: seq<Option<string>>): (m: map<string, nat>)
    ensures forall id :: id in m ==> m[id] < |hrefs|
  {
    if hrefs == [] then map[]
    else
      var m := LinkMap(hrefs[..|hrefs| - 1]);
      match AnchorId(hrefs[|hrefs| - 1])
      case None => m
      case Some(id) => m[id := |hrefs| - 1]
  }

  /** Builds the map with a loop over the links. */
  method BuildIdToNav(hrefs: seq<Option<string>>) returns (idToNav: map<string, nat>)
    ensures idToNav == LinkMap(hrefs)
  {
    idToNav := map[];
    for i := 0 to |hrefs|
      invariant idToNav == LinkMap(hrefs[..i])
    {
      assert hrefs[..i + 1][..i] == hrefs[..i];
      var href := hrefs[i];
      if href.Some? && |href.value| > 0 && href.value[0] == '#' {
        idToNav := idToNav[href.value[1..] := i];
      }
    }
    assert hrefs[..|hrefs|] == hrefs;
  }

  /** A link points at `id` exactly when its href is `#` followed by `id`. */
  lemma AnchorIdSpec(href: Option<string>, id: string)
    ensures AnchorId(href) == Some(id) <==> href == Some("#" + id)
  {
    if href.Some? && |href.value| > 0 && href.value[0] == '#' {
      assert href.value == "#" + href.value[1..];
    }
  }

  /** A section id is a key of the map exactly when some link's href is `#`
      followed by it, and then it maps to the last such link. */
  lemma {:induction false} LinkMapSpec(hrefs: seq<Option<string>>, id: string)
    ensures id in LinkMap(hrefs) <==> exists k :: 0 <= k < |hrefs| && hrefs[k] == Some("#" + id)
    ensures id in LinkMap(hrefs) ==>
      var k := LinkMap(hrefs)[id];
      && k < |hrefs| && hrefs[k] == Some("#" + id)
      && forall j :: k < j < |hrefs| ==> hrefs[j] != Some("#" + id)
    decreases |hrefs|
  {
    if hrefs != [] {
      var init, last := hrefs[..|hrefs| - 1], hrefs[|hrefs| - 1];
      LinkMapSpec(init, id);
      AnchorIdSpec(last, id);
      if exists k :: 0 <= k < |hrefs| && hrefs[k] == Some("#" + id) {
        var k :| 0 <= k < |hrefs| && hrefs[k] == Some("#" + id);
        if k < |hrefs| - 1 {
          assert init[k] == hrefs[k];
        }
      }
      if exists k :: 0 <= k < |init| && init[k] == Some("#" + id) {
        var k :| 0 <= k < |init| && init[k] == Some("#" + id);
        assert hrefs[k] == init[k];
      }
    }
  }

  /** What the observer reports about one section: its id (empty when it has
      none), whether it now intersects the viewport, and the fade-in elements
      inside it. */
  datatype Entry = Entry(targetId: string, isIntersecting: bool, fadeIns: set<nat>)

  /** The links carrying `active` and the elements carrying `visible`. */
  datatype TrackerState = TrackerState(active: set<nat>, visible: set<nat>)

  /** The link an intersecting section highlights: its mapped link, or none
      for an empty or unmapped id. */
  function Highlight(idToNav: map<string, nat>, id: string): set<nat> {
    if id != "" && id in idToNav then {idToNav[id]} else {}
  }

  /** The callback's update for one entry. */
  function Step(idToNav: map<string, nat>, st: TrackerState, e: Entry): (r: TrackerState)
    ensures r.active - idToNav.Values == st.active - idToNav.Values
    ensures st.visible <= r.visible
  {
    if e.isIntersecting then
      TrackerState((st.active - idToNav.Values) + Highlight(idToNav, e.targetId), st.visible + e.fadeIns)
    else st
  }

  /** The state after the entries, handled in order. */
  function AfterEntries(idToNav: map<string, nat>, st: TrackerState, entries: seq<Entry>): TrackerState {
    if entries == [] then st
    else Step(idToNav, AfterEntries(idToNav, st, entries[..|entries| - 1]), entries[|entries| - 1])
  }

  /** The id of the last intersecting entry, if any. */
  function LastIntersecting(entries: seq<Entry>): Option<string> {
    if entries == [] then None
    else if entries[|entries| - 1].isIntersecting then Some(entries[|entries| - 1].targetId)
    else LastIntersecting(entries[..|entries| - 1])
  }

  /** The fade-in elements of the intersecting entries. */
  function Revealed(entries: seq<Entry>): set<nat> {
    if entries == [] then {}
    else
      Revealed(entries[..|entries| - 1]) +
      (if entries[|entries| - 1].isIntersecting then entries[|entries| - 1].fadeIns else {})
  }

  /** One intersecting entry leaves at most one mapped link active: the
      section's own link, or none when its id is empty or unmapped. Links the
      map does not name keep their state, and `visible` only grows. A
      non-intersecting entry changes nothing. */
  lemma StepSpec(idToNav: map<string, nat>, st: TrackerState, e: Entry)
    ensures var st' := Step(idToNav, st, e);
      && (e.isIntersecting ==> st'.active * idToNav.Values == Highlight(idToNav, e.targetId))
      && (e.isIntersecting ==> |st'.active * idToNav.Values| <= 1)
      && (e.isIntersecting && e.targetId != "" && e.targetId in idToNav ==> idToNav[e.targetId] in st'.active)
      && st'.active - idToNav.Values == st.active - idToNav.Values
      && st'.visible == st.visible + (if e.isIntersecting then e.fadeIns else {})
      && (!e.isIntersecting ==> st' == st)
  {
    if e.isIntersecting {
      var h := Highlight(idToNav, e.targetId);
      var st' := Step(idToNav, st, e);
      assert h <= idToNav.Values;
      assert st'.active * idToNav.Values == h;
    }
  }

  /** After any sequence of entries: links the map does not name are as
      before; the mapped links that are active are those of the last
      intersecting entry's section (at most one), or as before when no entry
      intersected; and `visible` is the old set plus the fade-in elements of
      every intersecting entry, so reveal is one-way. */
  lemma {:induction false} AfterEntriesSpec(idToNav: map<string, nat>, st: TrackerState, entries: seq<Entry>)
    ensures var st' := AfterEntries(idToNav, st, entries);
      && st'.active - idToNav.Values == st.active - idToNav.Values
      && (LastIntersecting(entries).None? ==> st'.active * idToNav.Values == st.active * idToNav.Values)
      && (LastIntersecting(entries).Some? ==>
            st'.active * idToNav.Values == Highlight(idToNav, LastIntersecting(entries).value)
            && |st'.active * idToNav.Values| <= 1)
      && st'.visible == st.visible + Revealed(entries)
      && st.visible <= st'.visible
    decreases |entries|
  {
    if entries != [] {
      var init := entries[..|entries| - 1];
      AfterEntriesSpec(idToNav, st, init);
      StepSpec(idToNav, AfterEntries(idToNav, st, init), entries[|entries| - 1]);
    }
  }

  /** The observer's bookkeeping for the page. */
  class SectionTracker {
    /** The id-to-link map, fixed once built. */
    const idToNav: map<string, nat>
    /** The links carrying `active`. */
    var active: set<nat>
    /** The fade-in elements carrying `visible`. */
    var visible: set<nat>

    /** Builds the map from the links' hrefs; `initiallyActive` are the links
        the page's markup marks active. */
    constructor(hrefs: seq<Option<string>>, initiallyActive: set<nat>)
      ensures idToNav == LinkMap(hrefs)
      ensures active == initiallyActive && visible == {}
    {
      var m := BuildIdToNav(hrefs);
      idToNav := m;
      active := initiallyActive;
      visible := {};
    }

    /** The observer callback: handles each entry in order. */
    method OnEntries(entries: seq<Entry>)
      modifies this
      ensures TrackerState(active, visible) == AfterEntries(idToNav, old(TrackerState(active, visible)), entries)
    {
      var st0 := TrackerState(active, visible);
      for i := 0 to |entries|
        invariant TrackerState(active, visible) == AfterEntries(idToNav, st0, entries[..i])
      {
        assert entries[..i + 1][..i] == entries[..i];
        var e := entries[i];
        if e.isIntersecting {
          active := active - idToNav.Values;
          if e.targetId != "" && e.targetId in idToNav {
            active := active + {idToNav[e.targetId]};
          }
          visible := visible + e.fadeIns;
        }
      }
      assert entries[..|entries|] == entries;
    }
  }
}
