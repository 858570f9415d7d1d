/** What `get_locations` promises: how the namespace stack evolves, which
    variables become locations, and that the resulting map holds exactly
    one location per surviving log statement, at its own address. */
module DwarfLocationsProofs {
  import opened Common
  import opened DwarfLocations

  /** Some attribute named `n` has a value of kind `k`. */
  ghost predicate Present(attrs: seq<Attr>, n: AttrName, k: Kind) {
    exists j :: 0 <= j < |attrs| && Matches(attrs[j], n, k)
  }

  /** The five attributes a log statement's variable entry must carry. */
  ghost predicate HasAllFive(attrs: seq<Attr>) {
    && Present(attrs, NameAttr, StrKind)
    && Present(attrs, LinkageNameAttr, StrKind)
    && Present(attrs, DeclFileAttr, FileIndexKind)
    && Present(attrs, DeclLineAttr, UdataKind)
    && Present(attrs, LocationAttr, ExprlocKind)
  }

  /** The five fields as the attribute loop leaves them. */
  function SiteName(attrs: seq<Attr>): StrRef
    requires LastValue(attrs, NameAttr, StrKind).Some?
  {
    LastValue(attrs, NameAttr, StrKind).value.str
  }

  function SiteLinkage(attrs: seq<Attr>): StrRef
    requires LastValue(attrs, LinkageNameAttr, StrKind).Some?
  {
    LastValue(attrs, LinkageNameAttr, StrKind).value.str
  }

  function SiteFile(attrs: seq<Attr>): nat
    requires LastValue(attrs, DeclFileAttr, FileIndexKind).Some?
  {
    LastValue(attrs, DeclFileAttr, FileIndexKind).value.index
  }

  function SiteLine(attrs: seq<Attr>): nat
    requires LastValue(attrs, DeclLineAttr, UdataKind).Some?
  {
    LastValue(attrs, DeclLineAttr, UdataKind).value.value
  }

  function SiteAddress(attrs: seq<Attr>): Result<nat, LocError>
    requires LastValue(attrs, LocationAttr, ExprlocKind).Some?
  {
    ExprlocToAddress(LastValue(attrs, LocationAttr, ExprlocKind).value.ops)
  }

  /** A variable entry of a log statement whose symbol survived linking. */
  ghost predicate LiveSite(attrs: seq<Attr>, live: set<string>) {
    && HasAllFive(attrs)
    && SiteName(attrs) == Readable(LogStatementName)
    && SiteLinkage(attrs).Readable?
    && CutAt(SiteLinkage(attrs).text, '@') in live
  }

  ghost predicate LiveSiteAt(entries: seq<Entry>, j: int, live: set<string>) {
    0 <= j < |entries| && entries[j].tag == Variable && LiveSite(entries[j].attrs, live)
  }

  /** A namespace entry fails exactly when one of its names cannot be
      read, whatever the depth. */
  lemma {:induction false} EnterNamespaceFails(w: Walk, attrs: seq<Attr>)
    ensures EnterNamespace(w, attrs).Err? <==>
      exists j :: 0 <= j < |attrs| && attrs[j] == Attr(NameAttr, DebugStr(Unreadable))
    decreases |attrs|
  {
    if |attrs| > 0 {
      var n := |attrs|;
      var p := attrs[..n - 1];
      EnterNamespaceFails(w, p);
      assert forall j :: 0 <= j < n - 1 ==> p[j] == attrs[j];
      if exists j :: 0 <= j < |attrs| && attrs[j] == Attr(NameAttr, DebugStr(Unreadable)) {
        var j :| 0 <= j < |attrs| && attrs[j] == Attr(NameAttr, DebugStr(Unreadable));
        if j < n - 1 {
          assert p[j] == attrs[j];
        }
      }
    }
  }

  /** On a named namespace at depth `d` (with `1 <= d <= |segments| + 1`),
      the stack becomes its first `d - 1` segments followed by the last
      name; a namespace without a name leaves it alone; an unreadable name
      fails. */
  lemma EnterNamespaceStack(w: Walk, attrs: seq<Attr>)
    requires MachineSized(w.segments, w.depth) && 1 <= w.depth <= |w.segments| + 1
    ensures EnterNamespace(w, attrs).Err? <==>
      exists j :: 0 <= j < |attrs| && attrs[j] == Attr(NameAttr, DebugStr(Unreadable))
    ensures EnterNamespace(w, attrs).Ok? ==>
      var s := EnterNamespace(w, attrs).value.segments;
      match LastValue(attrs, NameAttr, StrKind)
      case None => s == w.segments
      case Some(v) =>
        && |s| == w.depth
        && s[..w.depth - 1] == w.segments[..w.depth - 1]
        && v == DebugStr(Readable(s[w.depth - 1]))
  {
    EnterNamespaceFails(w, attrs);
    StackInRange(w, attrs);
  }

  lemma {:induction false} StackInRange(w: Walk, attrs: seq<Attr>)
    requires MachineSized(w.segments, w.depth) && 1 <= w.depth <= |w.segments| + 1
    ensures EnterNamespace(w, attrs).Ok? ==>
      var s := EnterNamespace(w, attrs).value.segments;
      match LastValue(attrs, NameAttr, StrKind)
      case None => s == w.segments
      case Some(v) =>
        && |s| == w.depth
        && s[..w.depth - 1] == w.segments[..w.depth - 1]
        && v == DebugStr(Readable(s[w.depth - 1]))
    decreases |attrs|
  {
    if |attrs| > 0 {
      var n := |attrs|;
      var p := attrs[..n - 1];
      var a := attrs[n - 1];
      StackInRange(w, p);
      EnterNamespaceKeeps(w, p);
      if EnterNamespace(w, p).Ok? {
        var w1 := EnterNamespace(w, p).value;
        assert w1.segments[..w.depth - 1] == w.segments[..w.depth - 1];
        if a.name == NameAttr && a.value.DebugStr? && a.value.str.Readable? {
          assert PopScopes(w1.segments, w1.depth) == w.segments[..w.depth - 1];
          var s := EnterNamespace(w, attrs).value.segments;
          assert s == w.segments[..w.depth - 1] + [a.value.str.text];
        }
      }
    }
  }

  /** The readable `DW_AT_name` strings of a namespace entry, in the order
      its attribute loop pushes them. */
  function NamespaceNames(attrs: seq<Attr>): (r: seq<string>)
    ensures |r| <= |attrs|
    decreases |attrs|
  {
    if |attrs| == 0 then []
    else
      var a := attrs[|attrs| - 1];
      NamespaceNames(attrs[..|attrs| - 1]) +
        (if a.name == NameAttr && a.value.DebugStr? && a.value.str.Readable?
         then [a.value.str.text] else [])
  }

  /** On a named namespace deeper than one below the stack's top (as under
      a non-namespace entry), the pop loop is empty until the stack reaches
      `depth`: the stack is kept whole and the readable names are appended
      in order. Once the stack reaches `depth`, each further name replaces
      the top, so the stack holds the first names that fit followed by the
      last name. A namespace without a name leaves it alone; an unreadable
      name fails. */
  lemma EnterNamespaceDeep(w: Walk, attrs: seq<Attr>)
    requires MachineSized(w.segments, w.depth) && w.depth > |w.segments| + 1
    ensures EnterNamespace(w, attrs).Err? <==>
      exists j :: 0 <= j < |attrs| && attrs[j] == Attr(NameAttr, DebugStr(Unreadable))
    ensures EnterNamespace(w, attrs).Ok? ==>
      var s := EnterNamespace(w, attrs).value.segments;
      var names := NamespaceNames(attrs);
      && (|w.segments| + |names| <= w.depth ==> s == w.segments + names)
      && (|w.segments| + |names| > w.depth ==>
            s == w.segments + names[..w.depth - 1 - |w.segments|] + [names[|names| - 1]])
      && match LastValue(attrs, NameAttr, StrKind)
         case None => s == w.segments
         case Some(v) => |s| > |w.segments| && v == DebugStr(Readable(s[|s| - 1]))
  {
    EnterNamespaceFails(w, attrs);
    StackDeep(w, attrs);
    if EnterNamespace(w, attrs).Ok? {
      LastNameIsLast(attrs);
    }
  }

  lemma {:induction false} StackDeep(w: Walk, attrs: seq<Attr>)
    requires MachineSized(w.segments, w.depth) && w.depth > |w.segments| + 1
    ensures EnterNamespace(w, attrs).Ok? ==>
      DeepStack(w.segments, NamespaceNames(attrs), w.depth, EnterNamespace(w, attrs).value.segments)
    decreases |attrs|
  {
    if |attrs| > 0 {
      var n := |attrs|;
      var p := attrs[..n - 1];
      var a := attrs[n - 1];
      StackDeep(w, p);
      EnterNamespaceKeeps(w, p);
      if EnterNamespace(w, p).Ok? {
        var s0 := EnterNamespace(w, p).value.segments;
        if a.name == NameAttr && a.value.DebugStr? && a.value.str.Readable? {
          var x := a.value.str.text;
          assert NamespaceNames(attrs) == NamespaceNames(p) + [x];
          assert EnterNamespace(w, attrs).value.segments == PopScopes(s0, w.depth) + [x];
          PushDeep(w.segments, NamespaceNames(p), w.depth, s0, x);
        } else {
          assert NamespaceNames(attrs) == NamespaceNames(p);
        }
      }
    }
  }

  /** The stack `s` a deep namespace has built from `names`: all of them
      appended while they fit below `depth`, otherwise the first ones that
      fit followed by the last. */
  ghost predicate DeepStack(segments: seq<string>, names: seq<string>, depth: int, s: seq<string>) {
    && (|segments| + |names| <= depth ==> s == segments + names)
    && (|segments| + |names| > depth ==>
          && 0 <= depth - 1 - |segments| < |names|
          && s == segments + names[..depth - 1 - |segments|] + [names[|names| - 1]])
  }

  lemma PushDeep(segments: seq<string>, names: seq<string>, depth: int, s0: seq<string>, x: string)
    requires MachineSized(segments, depth) && depth > |segments| + 1
    requires DeepStack(segments, names, depth, s0)
    ensures DeepStack(segments, names + [x], depth, PopScopes(s0, depth) + [x])
  {
    var kept := PopScopes(s0, depth);
    if |segments| + |names| < depth {
      assert kept == s0;
    } else {
      assert |s0| == depth;
      assert kept == s0[..depth - 1];
      assert (names + [x])[..depth - 1 - |segments|] == names[..depth - 1 - |segments|];
    }
  }

  /** With every name readable, the last name attribute is the last of the
      namespace's names, and there is none exactly when it has no names. */
  lemma {:induction false} LastNameIsLast(attrs: seq<Attr>)
    requires forall j :: 0 <= j < |attrs| ==> attrs[j] != Attr(NameAttr, DebugStr(Unreadable))
    ensures match LastValue(attrs, NameAttr, StrKind)
      case None => NamespaceNames(attrs) == []
      case Some(v) => |NamespaceNames(attrs)| > 0 && v == DebugStr(Readable(NamespaceNames(attrs)[|NamespaceNames(attrs)| - 1]))
    decreases |attrs|
  {
    if |attrs| > 0 {
      var p := attrs[..|attrs| - 1];
      assert forall j :: 0 <= j < |p| ==> p[j] == attrs[j];
      LastNameIsLast(p);
    }
  }

  /** A variable that is not a surviving log statement changes nothing,
      unless its name or linkage name cannot be read, which is an error. */
  lemma VisitVariableSkips(w: Walk, attrs: seq<Attr>, unit: Unit, live: set<string>)
    ensures !HasAllFive(attrs) ==> VisitVariable(w, attrs, unit, live) == Ok(w)
    ensures HasAllFive(attrs) && (SiteName(attrs).Unreadable? || SiteLinkage(attrs).Unreadable?) ==>
      VisitVariable(w, attrs, unit, live) == Err(UnreadableString)
    ensures HasAllFive(attrs) && SiteName(attrs).Readable? && SiteLinkage(attrs).Readable? && !LiveSite(attrs, live) ==>
      VisitVariable(w, attrs, unit, live) == Ok(w)
  {
  }

  /** A surviving log statement adds exactly its location, at a fresh
      address, with the module path built from the namespace stack. */
  lemma VisitVariableInserts(w: Walk, attrs: seq<Attr>, unit: Unit, live: set<string>)
    requires LiveSite(attrs, live) && VisitVariable(w, attrs, unit, live).Ok?
    ensures SiteAddress(attrs).Ok? && FileIndexToPath(SiteFile(attrs), unit).Ok?
    ensures SiteAddress(attrs).value !in w.locs
    ensures VisitVariable(w, attrs, unit, live).value.locs ==
      w.locs[SiteAddress(attrs).value :=
        Location(FileIndexToPath(SiteFile(attrs), unit).value, SiteLine(attrs), Join(w.segments, ModuleSeparator))]
  {
  }

  /** Two log statements at one address are a fatal collision that names
      both locations. */
  lemma VisitVariableCollision(w: Walk, attrs: seq<Attr>, unit: Unit, live: set<string>)
    requires LiveSite(attrs, live)
    requires SiteAddress(attrs).Ok? && SiteAddress(attrs).value in w.locs
    requires FileIndexToPath(SiteFile(attrs), unit).Ok?
    ensures VisitVariable(w, attrs, unit, live) ==
      Err(Collision(SiteAddress(attrs).value, w.locs[SiteAddress(attrs).value],
                    Location(FileIndexToPath(SiteFile(attrs), unit).value, SiteLine(attrs), Join(w.segments, ModuleSeparator))))
  {
    LiveSiteRecords(w, attrs, unit, live);
  }

  /** A surviving log statement's variable entry goes straight to
      `RecordSite` with its location, file and line. */
  lemma LiveSiteRecords(w: Walk, attrs: seq<Attr>, unit: Unit, live: set<string>)
    requires LiveSite(attrs, live)
    ensures VisitVariable(w, attrs, unit, live) ==
      RecordSite(w, LastValue(attrs, LocationAttr, ExprlocKind).value.ops, SiteFile(attrs), SiteLine(attrs), unit)
  {
  }

  /** A variable entry either leaves the locations alone or, for a
      surviving log statement, adds its address, which was not there
      before. */
  lemma VisitVariableStep(w: Walk, e: Entry, unit: Unit, live: set<string>)
    requires e.tag == Variable && VisitEntry(w, e, unit, live).Ok?
    ensures StepAdds(e, live, w.locs, VisitEntry(w, e, unit, live).value.locs)
  {
    var w1 := w.(depth := w.depth + e.depthDelta);
    var r := VisitVariable(w1, e.attrs, unit, live);
    assert VisitEntry(w, e, unit, live) == r;
    if LiveSite(e.attrs, live) {
      VisitVariableInserts(w1, e.attrs, unit, live);
    } else {
      VisitVariableSkips(w1, e.attrs, unit, live);
      assert r.value.locs == w.locs;
    }
  }

  /** Any other entry leaves the locations alone. */
  lemma VisitOtherStep(w: Walk, e: Entry, unit: Unit, live: set<string>)
    requires e.tag != Variable && VisitEntry(w, e, unit, live).Ok?
    ensures StepAdds(e, live, w.locs, VisitEntry(w, e, unit, live).value.locs)
  {
    assert VisitEntry(w, e, unit, live).value.locs == w.locs;
  }

  /** `m1` keeps every location of `m0`. */
  ghost predicate Extends(m0: map<nat, Location>, m1: map<nat, Location>) {
    forall a :: a in m0 ==> a in m1 && m1[a] == m0[a]
  }

  /** Every address `m1` adds to `m0` is the address of a surviving log
      statement among `entries`. */
  ghost predicate FromSites(entries: seq<Entry>, live: set<string>, m0: map<nat, Location>, m1: map<nat, Location>) {
    forall a :: a in m1 && a !in m0 ==>
      exists j :: LiveSiteAt(entries, j, live) && SiteAddress(entries[j].attrs) == Ok(a)
  }

  /** Every surviving log statement among `entries` has a location in `m`. */
  ghost predicate Covered(entries: seq<Entry>, live: set<string>, m: map<nat, Location>) {
    forall j :: LiveSiteAt(entries, j, live) ==>
      SiteAddress(entries[j].attrs).Ok? && SiteAddress(entries[j].attrs).value in m
  }

  /** No two surviving log statements among `entries` share an address. */
  ghost predicate SitesDistinct(entries: seq<Entry>, live: set<string>) {
    forall i, j :: 0 <= i < j < |entries| && LiveSiteAt(entries, i, live) && LiveSiteAt(entries, j, live) ==>
      SiteAddress(entries[i].attrs) != SiteAddress(entries[j].attrs)
  }

  lemma SplitLast<T>(s: seq<T>)
    requires |s| > 0
    ensures s == s[..|s| - 1] + [s[|s| - 1]]
  {
  }

  /** The walk's last step, in terms of the walk over the earlier entries. */
  lemma VisitEntriesLast(w: Walk, entries: seq<Entry>, unit: Unit, live: set<string>)
    requires |entries| > 0 && VisitEntries(w, entries, unit, live).Ok?
    ensures VisitEntries(w, entries[..|entries| - 1], unit, live).Ok?
    ensures var wp := VisitEntries(w, entries[..|entries| - 1], unit, live).value;
      && VisitEntry(wp, entries[|entries| - 1], unit, live).Ok?
      && VisitEntries(w, entries, unit, live).value == VisitEntry(wp, entries[|entries| - 1], unit, live).value
  {
  }

  /** What one step of the walk does to the locations: keeps the old ones
      and, for a surviving log statement, adds its own fresh address. */
  ghost predicate StepAdds(e: Entry, live: set<string>, mp: map<nat, Location>, m1: map<nat, Location>) {
    && Extends(mp, m1)
    && (e.tag == Variable && LiveSite(e.attrs, live) ==>
          && SiteAddress(e.attrs).Ok?
          && SiteAddress(e.attrs).value !in mp
          && m1.Keys == mp.Keys + {SiteAddress(e.attrs).value})
    && (!(e.tag == Variable && LiveSite(e.attrs, live)) ==> m1 == mp)
  }

  lemma {:induction false} CoveredStep(p: seq<Entry>, e: Entry, live: set<string>, mp: map<nat, Location>, m1: map<nat, Location>)
    requires Covered(p, live, mp) && StepAdds(e, live, mp, m1)
    ensures Covered(p + [e], live, m1)
  {
    var es := p + [e];
    forall j | LiveSiteAt(es, j, live)
      ensures SiteAddress(es[j].attrs).Ok? && SiteAddress(es[j].attrs).value in m1
    {
      if j < |p| {
        assert es[j] == p[j];
        assert LiveSiteAt(p, j, live);
      }
    }
  }

  lemma {:induction false} FromSitesStep(
    p: seq<Entry>, e: Entry, live: set<string>,
    m0: map<nat, Location>, mp: map<nat, Location>, m1: map<nat, Location>)
    requires FromSites(p, live, m0, mp) && StepAdds(e, live, mp, m1)
    ensures FromSites(p + [e], live, m0, m1)
  {
    var es := p + [e];
    forall a | a in m1 && a !in m0
      ensures exists j :: LiveSiteAt(es, j, live) && SiteAddress(es[j].attrs) == Ok(a)
    {
      if a in mp {
        var j :| LiveSiteAt(p, j, live) && SiteAddress(p[j].attrs) == Ok(a);
        assert es[j] == p[j];
        assert LiveSiteAt(es, j, live);
      } else {
        assert es[|p|] == e;
        assert LiveSiteAt(es, |p|, live);
      }
    }
  }

  /** A surviving log statement `e` has an address not yet in `mp`. */
  ghost predicate FreshSite(e: Entry, live: set<string>, mp: map<nat, Location>) {
    e.tag == Variable && LiveSite(e.attrs, live) ==> SiteAddress(e.attrs).Ok? && SiteAddress(e.attrs).value !in mp
  }

  lemma {:induction false} DistinctStep(p: seq<Entry>, e: Entry, live: set<string>, mp: map<nat, Location>)
    requires SitesDistinct(p, live) && Covered(p, live, mp) && FreshSite(e, live, mp)
    ensures SitesDistinct(p + [e], live)
  {
    var es := p + [e];
    forall i, j | 0 <= i < j < |es| && LiveSiteAt(es, i, live) && LiveSiteAt(es, j, live)
      ensures SiteAddress(es[i].attrs) != SiteAddress(es[j].attrs)
    {
      assert es[i] == p[i];
      if j < |p| {
        assert es[j] == p[j];
        assert LiveSiteAt(p, i, live) && LiveSiteAt(p, j, live);
      } else {
        assert es[j] == e;
        assert LiveSiteAt(p, i, live);
        LiveSiteFresh(p[i], e, live, mp);
      }
    }
  }

  /** A site already covered by `mp` differs from the site the step adds. */
  lemma LiveSiteFresh(prior: Entry, e: Entry, live: set<string>, mp: map<nat, Location>)
    requires prior.tag == Variable && LiveSite(prior.attrs, live)
    requires SiteAddress(prior.attrs).Ok? && SiteAddress(prior.attrs).value in mp
    requires e.tag == Variable && LiveSite(e.attrs, live)
    requires FreshSite(e, live, mp)
    ensures SiteAddress(prior.attrs) != SiteAddress(e.attrs)
  {
  }

  /** After a successful walk: the earlier locations are untouched; every
      new address belongs to a surviving log statement of the walk, so
      statements the linker removed never get a location; every surviving
      statement has a location; and no two of them share an address, since
      a shared address is an error. */
  lemma {:induction false} VisitEntriesLocations(w: Walk, entries: seq<Entry>, unit: Unit, live: set<string>)
    requires VisitEntries(w, entries, unit, live).Ok?
    ensures var m1 := VisitEntries(w, entries, unit, live).value.locs;
      Extends(w.locs, m1) && FromSites(entries, live, w.locs, m1) && Covered(entries, live, m1) && SitesDistinct(entries, live)
    decreases |entries|
  {
    if |entries| == 0 {
    } else {
      var n := |entries|;
      var p := entries[..n - 1];
      VisitEntriesLast(w, entries, unit, live);
      var wp := VisitEntries(w, p, unit, live).value;
      VisitEntriesLocations(w, p, unit, live);
      if entries[n - 1].tag == Variable {
        VisitVariableStep(wp, entries[n - 1], unit, live);
      } else {
        VisitOtherStep(wp, entries[n - 1], unit, live);
      }
      SplitLast(entries);
      var m1 := VisitEntries(w, entries, unit, live).value.locs;
      assert StepAdds(entries[n - 1], live, wp.locs, m1);
      CoveredStep(p, entries[n - 1], live, wp.locs, m1);
      FromSitesStep(p, entries[n - 1], live, w.locs, wp.locs, m1);
      DistinctStep(p, entries[n - 1], live, wp.locs);
    }
  }

  /** Every surviving log statement among `entries` has an address that
      `m0` does not hold. */
  ghost predicate Fresh(entries: seq<Entry>, live: set<string>, m0: map<nat, Location>) {
    forall j :: LiveSiteAt(entries, j, live) ==>
      SiteAddress(entries[j].attrs).Ok? && SiteAddress(entries[j].attrs).value !in m0
  }

  lemma {:induction false} FreshStep(p: seq<Entry>, e: Entry, live: set<string>, m0: map<nat, Location>, mp: map<nat, Location>)
    requires Fresh(p, live, m0) && Extends(m0, mp) && FreshSite(e, live, mp)
    ensures Fresh(p + [e], live, m0)
  {
    var es := p + [e];
    forall j | LiveSiteAt(es, j, live)
      ensures SiteAddress(es[j].attrs).Ok? && SiteAddress(es[j].attrs).value !in m0
    {
      if j < |p| {
        assert es[j] == p[j];
        assert LiveSiteAt(p, j, live);
      } else {
        assert es[j] == e;
      }
    }
  }

  /** A successful walk found no surviving log statement at an address the
      locations already held when it began: such an address is a
      collision, which is an error. */
  lemma {:induction false} VisitEntriesFresh(w: Walk, entries: seq<Entry>, unit: Unit, live: set<string>)
    requires VisitEntries(w, entries, unit, live).Ok?
    ensures Fresh(entries, live, w.locs)
    decreases |entries|
  {
    if |entries| > 0 {
      var n := |entries|;
      var p := entries[..n - 1];
      var e := entries[n - 1];
      VisitEntriesLast(w, entries, unit, live);
      var wp := VisitEntries(w, p, unit, live).value;
      VisitEntriesFresh(w, p, unit, live);
      VisitEntriesLocations(w, p, unit, live);
      if e.tag == Variable {
        VisitVariableStep(wp, e, unit, live);
      }
      SplitLast(entries);
      FreshStep(p, e, live, w.locs, wp.locs);
    }
  }
}

module DwarfUnitsProofs {
  import opened Common
  import opened DwarfLocations
  import opened DwarfLocationsProofs

  /** The file path is the compilation directory (only under a relative
      directory), then the directory, then the name; an absolute directory
      or name discards what comes before it. */
  lemma FileIndexToPathLayout(index: nat, unit: Unit)
    requires index > 0 && unit.lineProgram.Some? && index in unit.lineProgram.value
    ensures var f := unit.lineProgram.value[index];
      var r := FileIndexToPath(index, unit);
      && r.Ok?
      && (f.name.absolute ==> r.value == f.name)
      && (!f.name.absolute && f.directory.None? ==> r.value == f.name)
      && (!f.name.absolute && f.directory.Some? && f.directory.value.absolute ==>
            r.value == Path(true, f.directory.value.components + f.name.components))
      && (!f.name.absolute && f.directory.Some? && !f.directory.value.absolute && unit.compDir.None? ==>
            r.value == Path(false, f.directory.value.components + f.name.components))
      && (!f.name.absolute && f.directory.Some? && !f.directory.value.absolute && unit.compDir.Some? ==>
            r.value == Path(unit.compDir.value.absolute,
                            unit.compDir.value.components + f.directory.value.components + f.name.components))
  {
    var f := unit.lineProgram.value[index];
    assert [] + f.name.components == f.name.components;
    if f.directory.Some? {
      var d := f.directory.value;
      assert [] + d.components == d.components;
      if unit.compDir.Some? {
        assert [] + unit.compDir.value.components == unit.compDir.value.components;
      }
    }
  }

  /** The entries of a unit that the walk visits: all but the root. */
  function Body(unit: Unit): seq<Entry> {
    if |unit.entries| == 0 then [] else unit.entries[1..]
  }

  /** Every address in `m` belongs to a surviving log statement of one of
      the units. */
  ghost predicate FromUnits(units: seq<Unit>, live: set<string>, m: map<nat, Location>) {
    forall a :: a in m ==>
      exists u, j :: 0 <= u < |units| && LiveSiteAt(Body(units[u]), j, live) && SiteAddress(Body(units[u])[j].attrs) == Ok(a)
  }

  /** Every surviving log statement of every unit has a location in `m`. */
  ghost predicate UnitsCovered(units: seq<Unit>, live: set<string>, m: map<nat, Location>) {
    forall u :: 0 <= u < |units| ==> Covered(Body(units[u]), live, m)
  }

  lemma VisitUnitLocations(locs: map<nat, Location>, unit: Unit, live: set<string>)
    requires VisitUnit(locs, unit, live).Ok?
    ensures var m := VisitUnit(locs, unit, live).value;
      Extends(locs, m) && FromSites(Body(unit), live, locs, m) && Covered(Body(unit), live, m)
    ensures SitesDistinct(Body(unit), live) && Fresh(Body(unit), live, locs)
  {
    VisitEntriesLocations(Walk(0, [], locs), unit.entries[1..], unit, live);
    VisitEntriesFresh(Walk(0, [], locs), unit.entries[1..], unit, live);
  }

  lemma {:induction false} CoveredExtends(entries: seq<Entry>, live: set<string>, m: map<nat, Location>, m1: map<nat, Location>)
    requires Covered(entries, live, m) && Extends(m, m1)
    ensures Covered(entries, live, m1)
  {
    forall j | LiveSiteAt(entries, j, live)
      ensures SiteAddress(entries[j].attrs).Ok? && SiteAddress(entries[j].attrs).value in m1
    {
    }
  }

  lemma GetLocationsLast(units: seq<Unit>, live: set<string>)
    requires |units| > 0 && GetLocations(units, live).Ok?
    ensures GetLocations(units[..|units| - 1], live).Ok?
    ensures VisitUnit(GetLocations(units[..|units| - 1], live).value, units[|units| - 1], live) == GetLocations(units, live)
  {
  }

  lemma {:induction false} FromUnitsStep(p: seq<Unit>, unit: Unit, live: set<string>, mp: map<nat, Location>, m: map<nat, Location>)
    requires FromUnits(p, live, mp) && FromSites(Body(unit), live, mp, m)
    ensures FromUnits(p + [unit], live, m)
  {
    var us := p + [unit];
    forall a | a in m
      ensures exists u, j :: 0 <= u < |us| && LiveSiteAt(Body(us[u]), j, live) && SiteAddress(Body(us[u])[j].attrs) == Ok(a)
    {
      if a in mp {
        var u, j :| 0 <= u < |p| && LiveSiteAt(Body(p[u]), j, live) && SiteAddress(Body(p[u])[j].attrs) == Ok(a);
        assert us[u] == p[u];
      } else {
        var j :| LiveSiteAt(Body(unit), j, live) && SiteAddress(Body(unit)[j].attrs) == Ok(a);
        assert us[|p|] == unit;
      }
    }
  }

  lemma {:induction false} UnitsCoveredStep(p: seq<Unit>, unit: Unit, live: set<string>, mp: map<nat, Location>, m: map<nat, Location>)
    requires UnitsCovered(p, live, mp) && Extends(mp, m) && Covered(Body(unit), live, m)
    ensures UnitsCovered(p + [unit], live, m)
  {
    var us := p + [unit];
    forall u | 0 <= u < |us|
      ensures Covered(Body(us[u]), live, m)
    {
      if u < |p| {
        assert us[u] == p[u];
        CoveredExtends(Body(p[u]), live, mp, m);
      } else {
        assert us[u] == unit;
      }
    }
  }

  /** No two surviving log statements share an address, within one unit or
      across units. */
  ghost predicate UnitsDistinct(units: seq<Unit>, live: set<string>) {
    forall u, i, v, j ::
      && 0 <= u <= v < |units| && (u < v || i < j)
      && LiveSiteAt(Body(units[u]), i, live) && LiveSiteAt(Body(units[v]), j, live)
      ==> SiteAddress(Body(units[u])[i].attrs) != SiteAddress(Body(units[v])[j].attrs)
  }

  lemma {:induction false} UnitsDistinctStep(p: seq<Unit>, unit: Unit, live: set<string>, mp: map<nat, Location>)
    requires UnitsDistinct(p, live) && UnitsCovered(p, live, mp)
    requires SitesDistinct(Body(unit), live) && Fresh(Body(unit), live, mp)
    ensures UnitsDistinct(p + [unit], live)
  {
    var us := p + [unit];
    forall u, i, v, j |
      && 0 <= u <= v < |us| && (u < v || i < j)
      && LiveSiteAt(Body(us[u]), i, live) && LiveSiteAt(Body(us[v]), j, live)
      ensures SiteAddress(Body(us[u])[i].attrs) != SiteAddress(Body(us[v])[j].attrs)
    {
      if v < |p| {
        assert us[u] == p[u] && us[v] == p[v];
      } else if u < |p| {
        assert us[u] == p[u] && us[v] == unit;
        assert Covered(Body(p[u]), live, mp);
      } else {
        assert us[u] == unit && us[v] == unit;
      }
    }
  }

  /** `get_locations` keeps a location only for a log statement whose symbol
      survived linking, and keeps one for every such statement of every
      unit; no two such statements share an address, in one unit or
      across units, since the map is shared and a shared address fails. */
  lemma {:induction false} GetLocationsSites(units: seq<Unit>, live: set<string>)
    requires GetLocations(units, live).Ok?
    ensures FromUnits(units, live, GetLocations(units, live).value)
    ensures UnitsCovered(units, live, GetLocations(units, live).value)
    ensures UnitsDistinct(units, live)
    decreases |units|
  {
    if |units| > 0 {
      var n := |units|;
      var p := units[..n - 1];
      GetLocationsLast(units, live);
      var mp := GetLocations(p, live).value;
      var m := GetLocations(units, live).value;
      GetLocationsSites(p, live);
      VisitUnitLocations(mp, units[n - 1], live);
      SplitLast(units);
      FromUnitsStep(p, units[n - 1], live, mp, m);
      UnitsCoveredStep(p, units[n - 1], live, mp, m);
      UnitsDistinctStep(p, units[n - 1], live, mp);
    }
  }
}
