/** What `parse` promises about the table it builds, stated against the
    symbol list directly: which version it reports, when it fails, which
    address each string lands at and where each level range comes from. */
module ElfTableProofs {
  import opened Common
  import opened ElfTable

  /** The versions carried by the named version symbols, in symbol order. */
  function Versions(syms: seq<Symbol>): seq<string>
    decreases |syms|
  {
    if |syms| == 0 then []
    else
      var last := syms[|syms| - 1];
      Versions(syms[..|syms| - 1])
      + (if last.name.Some? && IsVersionSymbol(last.name.value) then [VersionValue(last.name.value)] else [])
  }

  /** A symbol of the `.defmt` section that goes into the string map. */
  predicate IsEntry(sym: Symbol, defmt: nat) {
    sym.section == Some(defmt) && sym.name.Some? && ParseMarker(sym.name.value).None?
  }

  /** A symbol of the `.defmt` section that is marker `m`. */
  predicate IsBoundary(sym: Symbol, defmt: nat, m: Marker) {
    sym.section == Some(defmt) && sym.name == Some(MarkerName(m))
  }

  /** `syms[j]` is the last map entry at address `a`. */
  ghost predicate LastEntryAt(syms: seq<Symbol>, defmt: nat, j: int, a: nat) {
    && 0 <= j < |syms|
    && IsEntry(syms[j], defmt)
    && syms[j].address == a
    && forall k :: j < k < |syms| ==> !(IsEntry(syms[k], defmt) && syms[k].address == a)
  }

  /** `syms[j]` is the last occurrence of marker `m`. */
  ghost predicate LastBoundary(syms: seq<Symbol>, defmt: nat, m: Marker, j: int) {
    && 0 <= j < |syms|
    && IsBoundary(syms[j], defmt, m)
    && forall k :: j < k < |syms| ==> !IsBoundary(syms[k], defmt, m)
  }

  /** `addr` is the address of the last occurrence of marker `m`. */
  ghost predicate BoundFrom(syms: seq<Symbol>, defmt: nat, m: Marker, addr: nat) {
    exists j :: LastBoundary(syms, defmt, m, j) && syms[j].address == addr
  }

  ghost predicate HasBoundary(syms: seq<Symbol>, defmt: nat, m: Marker) {
    exists j :: 0 <= j < |syms| && IsBoundary(syms[j], defmt, m)
  }

  function RangeOf(t: TableParts, l: Level): Range {
    match l
    case Error => t.error
    case Warn => t.warn
    case Info => t.info
    case Debug => t.debug
    case Trace => t.trace
  }

  function BoundOf(t: TableParts, m: Marker): nat {
    if m.edge == Start then RangeOf(t, m.level).start else RangeOf(t, m.level).end
  }

  /** What one turn of the symbol loop does to the map and the boundaries. */
  lemma ScanSymbolEffect(st: ScanState, sym: Symbol, defmt: nat)
    requires ScanSymbol(st, sym, defmt).Ok?
    ensures var r := ScanSymbol(st, sym, defmt).value;
      && r.entries == (if IsEntry(sym, defmt) then st.entries[sym.address := sym.name.value] else st.entries)
      && (forall m :: IsBoundary(sym, defmt, m) ==> m in r.bounds)
      && (forall m :: m in st.bounds ==> m in r.bounds)
      && (forall m :: m in r.bounds ==>
            if IsBoundary(sym, defmt, m) then r.bounds[m] == sym.address
            else m in st.bounds && r.bounds[m] == st.bounds[m])
  {
    if sym.name.Some? {
      var name := sym.name.value;
      var r := ScanSymbol(st, sym, defmt).value;
      var st1 := if IsVersionSymbol(name) then st.(version := Some(VersionValue(name))) else st;
      assert st1.entries == st.entries && st1.bounds == st.bounds;
      if sym.section != Some(defmt) {
        assert r == st1;
      } else {
        match ParseMarker(name)
        case Some(m0) =>
          assert r == st1.(bounds := st1.bounds[m0 := sym.address]);
          forall m
            ensures IsBoundary(sym, defmt, m) <==> m == m0
          {
            ParseMarkerExact(name, m);
          }
        case None =>
          assert r == st1.(entries := st1.entries[sym.address := name]);
          forall m
            ensures !IsBoundary(sym, defmt, m)
          {
            ParseMarkerExact(name, m);
          }
      }
    }
  }

  /** What one turn of the symbol loop does to the version. */
  lemma ScanSymbolVersion(st: ScanState, sym: Symbol, defmt: nat)
    ensures var isV := sym.name.Some? && IsVersionSymbol(sym.name.value);
      && (ScanSymbol(st, sym, defmt).Err? <==> isV && st.version.Some?)
      && (ScanSymbol(st, sym, defmt).Err? ==> ScanSymbol(st, sym, defmt).error == MultipleVersions(st.version.value, VersionValue(sym.name.value)))
      && (ScanSymbol(st, sym, defmt).Ok? ==> ScanSymbol(st, sym, defmt).value.version == (if isV then Some(VersionValue(sym.name.value)) else st.version))
  {
    match sym.name
    case None =>
    case Some(name) =>
      if !(IsVersionSymbol(name) && st.version.Some?) {
        var st1 := if IsVersionSymbol(name) then st.(version := Some(VersionValue(name))) else st;
        if sym.section == Some(defmt) {
          match ParseMarker(name)
          case Some(m) =>
            assert ScanSymbol(st, sym, defmt) == Ok(st1.(bounds := st1.bounds[m := sym.address]));
          case None =>
            assert ScanSymbol(st, sym, defmt) == Ok(st1.(entries := st1.entries[sym.address := name]));
        }
      }
  }

  /** Only a second version symbol makes the loop fail, naming the first two
      versions; otherwise the version seen is the first (and only) one. */
  lemma {:induction false} ScanVersions(syms: seq<Symbol>, defmt: nat)
    ensures ScanSymbols(syms, defmt).Err? <==> |Versions(syms)| >= 2
    ensures ScanSymbols(syms, defmt).Err? ==>
      ScanSymbols(syms, defmt).error == MultipleVersions(Versions(syms)[0], Versions(syms)[1])
    ensures ScanSymbols(syms, defmt).Ok? ==>
      ScanSymbols(syms, defmt).value.version == (if |Versions(syms)| == 0 then None else Some(Versions(syms)[0]))
  {
    if |syms| > 0 {
      var p := syms[..|syms| - 1];
      var s := syms[|syms| - 1];
      ScanVersions(p, defmt);
      var vp := Versions(p);
      var isV := s.name.Some? && IsVersionSymbol(s.name.value);
      assert Versions(syms) == vp + (if isV then [VersionValue(s.name.value)] else []);
      if ScanSymbols(p, defmt).Ok? {
        var st := ScanSymbols(p, defmt).value;
        assert ScanSymbols(syms, defmt) == ScanSymbol(st, s, defmt);
        ScanSymbolVersion(st, s, defmt);
      }
    }
  }

  /** Every map entry of the section is in the map, and each address holds
      the name of the last entry symbol at that address. */
  lemma {:induction false} ScanEntries(syms: seq<Symbol>, defmt: nat)
    requires ScanSymbols(syms, defmt).Ok?
    ensures var e := ScanSymbols(syms, defmt).value.entries;
      && (forall j :: 0 <= j < |syms| && IsEntry(syms[j], defmt) ==> syms[j].address in e)
      && (forall a :: a in e ==> exists j :: LastEntryAt(syms, defmt, j, a) && e[a] == syms[j].name.value)
  {
    if |syms| > 0 {
      var n := |syms|;
      var p := syms[..n - 1];
      var s := syms[n - 1];
      ScanEntries(p, defmt);
      var st := ScanSymbols(p, defmt).value;
      ScanSymbolEffect(st, s, defmt);
      var e0 := st.entries;
      var e := ScanSymbols(syms, defmt).value.entries;
      forall j | 0 <= j < n && IsEntry(syms[j], defmt)
        ensures syms[j].address in e
      {
        if j < n - 1 {
          assert p[j] == syms[j];
        }
      }
      forall a | a in e
        ensures exists j :: LastEntryAt(syms, defmt, j, a) && e[a] == syms[j].name.value
      {
        if IsEntry(s, defmt) && s.address == a {
          assert LastEntryAt(syms, defmt, n - 1, a);
        } else {
          var j :| LastEntryAt(p, defmt, j, a) && e0[a] == p[j].name.value;
          assert LastEntryAt(syms, defmt, j, a);
        }
      }
    }
  }

  /** A marker is set exactly when some section symbol carries its name. */
  lemma {:induction false} ScanBoundsKeys(syms: seq<Symbol>, defmt: nat)
    requires ScanSymbols(syms, defmt).Ok?
    ensures forall m :: m in ScanSymbols(syms, defmt).value.bounds <==> HasBoundary(syms, defmt, m)
  {
    if |syms| > 0 {
      var n := |syms|;
      var p := syms[..n - 1];
      var s := syms[n - 1];
      ScanBoundsKeys(p, defmt);
      var st := ScanSymbols(p, defmt).value;
      ScanSymbolEffect(st, s, defmt);
      var b := ScanSymbols(syms, defmt).value.bounds;
      assert syms == p + [s];
      forall m | m in b
        ensures HasBoundary(syms, defmt, m)
      {
        if IsBoundary(s, defmt, m) {
          assert syms[n - 1] == s;
        } else {
          var j :| 0 <= j < |p| && IsBoundary(p[j], defmt, m);
          assert syms[j] == p[j];
        }
      }
      forall m | HasBoundary(syms, defmt, m)
        ensures m in b
      {
        if !IsBoundary(s, defmt, m) {
          var j :| 0 <= j < n && IsBoundary(syms[j], defmt, m);
          assert j < n - 1 && p[j] == syms[j];
        }
      }
    }
  }

  /** A marker that is set holds the address of its last occurrence. */
  lemma {:induction false} ScanBoundLast(syms: seq<Symbol>, defmt: nat, m: Marker)
    requires ScanSymbols(syms, defmt).Ok?
    requires m in ScanSymbols(syms, defmt).value.bounds
    ensures BoundFrom(syms, defmt, m, ScanSymbols(syms, defmt).value.bounds[m])
  {
    var n := |syms|;
    var p := syms[..n - 1];
    var s := syms[n - 1];
    var st := ScanSymbols(p, defmt).value;
    ScanSymbolEffect(st, s, defmt);
    var b := ScanSymbols(syms, defmt).value.bounds;
    if IsBoundary(s, defmt, m) {
      assert LastBoundary(syms, defmt, m, n - 1);
    } else {
      ScanBoundLast(p, defmt, m);
      var j :| LastBoundary(p, defmt, m, j) && st.bounds[m] == p[j].address;
      assert LastBoundary(syms, defmt, m, j);
    }
  }

  /** With a `.defmt` section, `parse` fails on a second version symbol
      (even an equal one), fails when the version or any boundary is
      missing, and succeeds otherwise. */
  lemma ParseOutcome(elf: Elf, defmt: nat)
    requires DefmtSection(elf.sections) == Some(defmt)
    ensures var v := Versions(elf.symbols);
      |v| >= 2 ==> Parse(elf) == Err(MultipleVersions(v[0], v[1]))
    ensures |Versions(elf.symbols)| <= 1 ==>
      (Parse(elf).Ok? <==> |Versions(elf.symbols)| == 1 && forall m :: HasBoundary(elf.symbols, defmt, m))
    ensures |Versions(elf.symbols)| <= 1 && Parse(elf).Err? ==> Parse(elf) == Err(SymbolNotFound)
    ensures Parse(elf).Ok? ==> Parse(elf).value.Some?
  {
    ScanVersions(elf.symbols, defmt);
    if ScanSymbols(elf.symbols, defmt).Ok? {
      ScanBoundsKeys(elf.symbols, defmt);
      var b := ScanSymbols(elf.symbols, defmt).value.bounds;
      if forall m :: HasBoundary(elf.symbols, defmt, m) {
        forall m | m in AllMarkers
          ensures m in b
        {
        }
      } else {
        var m :| !HasBoundary(elf.symbols, defmt, m);
        AllMarkersComplete(m);
      }
    }
  }

  /** A table comes from a successful symbol loop and a successful finish. */
  lemma ParseScan(elf: Elf, defmt: nat, t: TableParts)
    requires DefmtSection(elf.sections) == Some(defmt)
    requires Parse(elf) == Ok(Some(t))
    ensures ScanSymbols(elf.symbols, defmt).Ok? && Finish(ScanSymbols(elf.symbols, defmt).value) == Ok(t)
  {
  }

  /** Each range of a table `parse` builds runs from the last start marker
      to the last end marker of its level. */
  lemma ParseTableBounds(elf: Elf, defmt: nat, t: TableParts)
    requires DefmtSection(elf.sections) == Some(defmt)
    requires Parse(elf) == Ok(Some(t))
    ensures forall m :: BoundFrom(elf.symbols, defmt, m, BoundOf(t, m))
  {
    ParseScan(elf, defmt, t);
    var syms := elf.symbols;
    var st := ScanSymbols(syms, defmt).value;
    FinishBounds(st);
    forall m
      ensures BoundFrom(syms, defmt, m, BoundOf(t, m))
    {
      ScanBoundLast(syms, defmt, m);
    }

  }

  /** A table `parse` builds holds the only version, and one map entry per
      address of the section's non-reserved symbols, the later symbol
      winning. */
  lemma ParseTable(elf: Elf, defmt: nat, t: TableParts)
    requires DefmtSection(elf.sections) == Some(defmt)
    requires Parse(elf) == Ok(Some(t))
    ensures Versions(elf.symbols) == [t.version]
    ensures forall j :: 0 <= j < |elf.symbols| && IsEntry(elf.symbols[j], defmt) ==> elf.symbols[j].address in t.entries
    ensures forall a :: a in t.entries ==>
      exists j :: LastEntryAt(elf.symbols, defmt, j, a) && t.entries[a] == elf.symbols[j].name.value
  {
    ParseScan(elf, defmt, t);
    var syms := elf.symbols;
    ScanVersions(syms, defmt);
    ScanEntries(syms, defmt);
  }

  /** The ranges of a finished table are the boundaries the loop recorded. */
  lemma FinishBounds(st: ScanState)
    requires Finish(st).Ok?
    ensures forall m :: m in st.bounds && BoundOf(Finish(st).value, m) == st.bounds[m]
  {
    forall m
      ensures m in st.bounds && BoundOf(Finish(st).value, m) == st.bounds[m]
    {
      AllMarkersComplete(m);
    }
  }
}
