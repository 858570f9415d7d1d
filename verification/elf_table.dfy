/** Building the interner table from an ELF file's symbols
    (elf2table/src/lib.rs, `parse`).

    The ELF file is given already parsed: the names of its sections, in
    section-header order, and its symbols with their optional name, optional
    section index and address. The result is the set of arguments `parse`
    hands to `Table::new`: the address-to-string map, the five level ranges
    and the version string. */
module ElfTable {
  import opened Common

  datatype Symbol = Symbol(name: Option<string>, section: Option<nat>, address: nat)

  datatype Elf = Elf(sections: seq<string>, symbols: seq<Symbol>)

  datatype Level = Error | Warn | Info | Debug | Trace

  datatype Edge = Start | End

  /** One of the ten reserved `_defmt_<level>_<edge>` symbols. */
  datatype Marker = Marker(level: Level, edge: Edge)

  /** A Rust `start..end` range; nothing forces `start <= end`. */
  datatype Range = Range(start: nat, end: nat)

  datatype TableParts = TableParts(
    entries: map<nat, string>,
    error: Range,
    warn: Range,
    info: Range,
    debug: Range,
    trace: Range,
    version: string)

  datatype ParseError =
    | MultipleVersions(first: string, second: string)
    | SymbolNotFound

  /** What the symbol loop has gathered so far. */
  datatype ScanState = ScanState(entries: map<nat, string>, version: Option<string>, bounds: map<Marker, nat>)

  const DefmtSectionName := ".defmt"
  const QuotedVersionPrefix := "\"_defmt_version_ = "
  const VersionPrefix := "_defmt_version_ = "

  function LevelName(l: Level): string {
    match l
    case Error => "error"
    case Warn => "warn"
    case Info => "info"
    case Debug => "debug"
    case Trace => "trace"
  }

  function MarkerName(m: Marker): string {
    "_defmt_" + LevelName(m.level) + (if m.edge == Start then "_start" else "_end")
  }

  /** The `match name { ... }` arms for the ten reserved names. */
  function ParseMarker(name: string): Option<Marker> {
    match name
    case "_defmt_trace_start" => Some(Marker(Trace, Start))
    case "_defmt_trace_end" => Some(Marker(Trace, End))
    case "_defmt_debug_start" => Some(Marker(Debug, Start))
    case "_defmt_debug_end" => Some(Marker(Debug, End))
    case "_defmt_info_start" => Some(Marker(Info, Start))
    case "_defmt_info_end" => Some(Marker(Info, End))
    case "_defmt_warn_start" => Some(Marker(Warn, Start))
    case "_defmt_warn_end" => Some(Marker(Warn, End))
    case "_defmt_error_start" => Some(Marker(Error, Start))
    case "_defmt_error_end" => Some(Marker(Error, End))
    case _ => None
  }

  /** The five reserved start names, spelled out. */
  lemma StartMarkerNames()
    ensures MarkerName(Marker(Trace, Start)) == "_defmt_trace_start"
    ensures MarkerName(Marker(Debug, Start)) == "_defmt_debug_start"
    ensures MarkerName(Marker(Info, Start)) == "_defmt_info_start"
    ensures MarkerName(Marker(Warn, Start)) == "_defmt_warn_start"
    ensures MarkerName(Marker(Error, Start)) == "_defmt_error_start"
  {
  }

  /** The five reserved end names, spelled out. */
  lemma EndMarkerNames()
    ensures MarkerName(Marker(Trace, End)) == "_defmt_trace_end"
    ensures MarkerName(Marker(Debug, End)) == "_defmt_debug_end"
    ensures MarkerName(Marker(Info, End)) == "_defmt_info_end"
    ensures MarkerName(Marker(Warn, End)) == "_defmt_warn_end"
    ensures MarkerName(Marker(Error, End)) == "_defmt_error_end"
  {
  }

  /** A name is one of the reserved ones exactly when it is the name of that marker. */
  lemma ParseMarkerExact(name: string, m: Marker)
    ensures ParseMarker(name) == Some(m) <==> name == MarkerName(m)
  {
    StartMarkerNames();
    EndMarkerNames();
    AllMarkersComplete(m);
  }

  const AllMarkers: set<Marker> := {
    Marker(Error, Start), Marker(Error, End), Marker(Warn, Start), Marker(Warn, End),
    Marker(Info, Start), Marker(Info, End), Marker(Debug, Start), Marker(Debug, End),
    Marker(Trace, Start), Marker(Trace, End)
  }

  lemma AllMarkersComplete(m: Marker)
    ensures m in AllMarkers
  {
    match m
    case Marker(Error, Start) =>
    case Marker(Error, End) =>
    case Marker(Warn, Start) =>
    case Marker(Warn, End) =>
    case Marker(Info, Start) =>
    case Marker(Info, End) =>
    case Marker(Debug, Start) =>
    case Marker(Debug, End) =>
    case Marker(Trace, Start) =>
    case Marker(Trace, End) =>
  }

  /** `t` is whole copies of `p`, one after another. */
  predicate Copies(t: string, p: string)
    requires |p| > 0
    decreases |t|
  {
    |t| == 0 || (StartsWith(t, p) && Copies(t[|p|..], p))
  }

  /** `str::trim_start_matches` with a string pattern: removes every leading
      repetition of `p`. */
  function TrimStartMatches(s: string, p: string): (r: string)
    requires |p| > 0
    ensures EndsWith(s, r)
    ensures Copies(s[..|s| - |r|], p)
    ensures !StartsWith(r, p)
    decreases |s|
  {
    if StartsWith(s, p) then
      var r := TrimStartMatches(s[|p|..], p);
      assert s[..|s| - |r|][|p|..] == s[|p|..][..|s| - |p| - |r|];
      r
    else s
  }

  /** `str::trim_end_matches` with a character: removes every trailing `c`. */
  function TrimEndMatches(s: string, c: char): (r: string)
    ensures StartsWith(s, r)
    ensures |r| == 0 || r[|r| - 1] != c
    ensures forall i :: |r| <= i < |s| ==> s[i] == c
  {
    if |s| > 0 && s[|s| - 1] == c then TrimEndMatches(s[..|s| - 1], c) else s
  }

  predicate IsVersionSymbol(name: string) {
    StartsWith(name, QuotedVersionPrefix) || StartsWith(name, VersionPrefix)
  }

  /** The version carried by a version symbol's name. */
  function VersionValue(name: string): string {
    TrimEndMatches(TrimStartMatches(TrimStartMatches(name, QuotedVersionPrefix), VersionPrefix), '"')
  }

  /** A version string written by the linker script, with or without the
      stray quotes some linkers keep, is read back unchanged, provided it
      neither ends in a quote nor starts with a version prefix: the trims
      are greedy and would remove those too. */
  lemma VersionRoundTrip(v: string)
    requires !StartsWith(v, VersionPrefix) && !StartsWith(v, QuotedVersionPrefix)
    requires |v| == 0 || v[|v| - 1] != '"'
    ensures IsVersionSymbol(VersionPrefix + v) && VersionValue(VersionPrefix + v) == v
    ensures IsVersionSymbol(QuotedVersionPrefix + v + "\"")
    ensures VersionValue(QuotedVersionPrefix + v + "\"") == v
  {
    PlainVersion(v);
    QuotedVersion(v);
  }

  lemma PlainVersion(v: string)
    requires !StartsWith(v, VersionPrefix) && !StartsWith(v, QuotedVersionPrefix)
    requires |v| == 0 || v[|v| - 1] != '"'
    ensures IsVersionSymbol(VersionPrefix + v) && VersionValue(VersionPrefix + v) == v
  {
    var plain := VersionPrefix + v;
    assert StartsWith(plain, VersionPrefix) by {
      assert plain[..|VersionPrefix|] == VersionPrefix;
    }
    assert !StartsWith(plain, QuotedVersionPrefix) by {
      assert plain[0] == '_' && QuotedVersionPrefix[0] == '"';
    }
    TrimNothing(plain, QuotedVersionPrefix);
    assert plain[|VersionPrefix|..] == v;
    TrimNothing(v, VersionPrefix);
    assert TrimStartMatches(plain, VersionPrefix) == v;
    assert TrimEndMatches(v, '"') == v;
  }

  lemma QuotedVersion(v: string)
    requires !StartsWith(v, VersionPrefix) && !StartsWith(v, QuotedVersionPrefix)
    requires |v| == 0 || v[|v| - 1] != '"'
    ensures IsVersionSymbol(QuotedVersionPrefix + v + "\"")
    ensures VersionValue(QuotedVersionPrefix + v + "\"") == v
  {
    var quoted := QuotedVersionPrefix + v + "\"";
    assert quoted[..|QuotedVersionPrefix|] == QuotedVersionPrefix;
    assert quoted[|QuotedVersionPrefix|..] == v + "\"";
    var vq := v + "\"";
    NoPrefixAfterQuote(v, QuotedVersionPrefix);
    NoPrefixAfterQuote(v, VersionPrefix);
    assert TrimStartMatches(vq, QuotedVersionPrefix) == vq;
    assert TrimStartMatches(quoted, QuotedVersionPrefix) == vq;
    assert TrimStartMatches(vq, VersionPrefix) == vq;
    assert vq[..|vq| - 1] == v;
    assert TrimEndMatches(vq, '"') == TrimEndMatches(v, '"');
    assert TrimEndMatches(v, '"') == v;
  }

  lemma TrimNothing(s: string, p: string)
    requires |p| > 0 && !StartsWith(s, p)
    ensures TrimStartMatches(s, p) == s
  {
  }

  /** Appending a quote cannot create one of the version prefixes, since
      neither has a quote after its first character. */
  lemma NoPrefixAfterQuote(v: string, p: string)
    requires p == VersionPrefix || p == QuotedVersionPrefix
    requires !StartsWith(v, p)
    ensures !StartsWith(v + "\"", p)
  {
    var vq := v + "\"";
    if |v| >= |p| {
      assert vq[..|p|] == v[..|p|];
    } else {
      assert forall k :: 1 <= k < |p| ==> p[k] != '"';
      assert vq[|v|] == '"';
    }
  }

  /** The index of the first section called `.defmt` (`section_by_name`). */
  function DefmtSection(sections: seq<string>): (r: Option<nat>)
    ensures r.Some? ==> r.value < |sections| && sections[r.value] == DefmtSectionName
    ensures r.Some? ==> forall i :: 0 <= i < r.value ==> sections[i] != DefmtSectionName
    ensures r.None? ==> forall i :: 0 <= i < |sections| ==> sections[i] != DefmtSectionName
  {
    if |sections| == 0 then None
    else if sections[0] == DefmtSectionName then Some(0)
    else match DefmtSection(sections[1..])
      case None => None
      case Some(i) => Some(i + 1)
  }

  /** One turn of the symbol loop. A version symbol is checked whatever its
      section; a symbol in `.defmt` then sets a boundary or enters the map. */
  function ScanSymbol(st: ScanState, sym: Symbol, defmt: nat): Result<ScanState, ParseError> {
    match sym.name
    case None => Ok(st)
    case Some(name) =>
      if IsVersionSymbol(name) && st.version.Some? then
        Err(MultipleVersions(st.version.value, VersionValue(name)))
      else
        var st1 := if IsVersionSymbol(name) then st.(version := Some(VersionValue(name))) else st;
        if sym.section == Some(defmt) then
          match ParseMarker(name)
          case Some(m) => Ok(st1.(bounds := st1.bounds[m := sym.address]))
          case None => Ok(st1.(entries := st1.entries[sym.address := name]))
        else Ok(st1)
  }

  /** The symbol loop over `syms`, in order, stopping at the first error. */
  function ScanSymbols(syms: seq<Symbol>, defmt: nat): Result<ScanState, ParseError>
    decreases |syms|
  {
    if |syms| == 0 then Ok(ScanState(map[], None, map[]))
    else
      var st :- ScanSymbols(syms[..|syms| - 1], defmt);
      ScanSymbol(st, syms[|syms| - 1], defmt)
  }

  function BoundRange(bounds: map<Marker, nat>, l: Level): Range
    requires Marker(l, Start) in bounds && Marker(l, End) in bounds
  {
    Range(bounds[Marker(l, Start)], bounds[Marker(l, End)])
  }

  /** The "unify errors" step: every boundary and the version must be there. */
  function Finish(st: ScanState): Result<TableParts, ParseError> {
    if AllMarkers <= st.bounds.Keys && st.version.Some? then
      Ok(TableParts(st.entries,
                    BoundRange(st.bounds, Error), BoundRange(st.bounds, Warn),
                    BoundRange(st.bounds, Info), BoundRange(st.bounds, Debug),
                    BoundRange(st.bounds, Trace), st.version.value))
    else Err(SymbolNotFound)
  }

  /** `parse`: no table without a `.defmt` section, otherwise the table's parts. */
  function Parse(elf: Elf): (r: Result<Option<TableParts>, ParseError>)
    ensures DefmtSection(elf.sections).None? ==> r == Ok(None)
    ensures r.Ok? && r.value.Some? ==> DefmtSection(elf.sections).Some?
  {
    match DefmtSection(elf.sections)
    case None => Ok(None)
    case Some(defmt) =>
      var st :- ScanSymbols(elf.symbols, defmt);
      var parts :- Finish(st);
      Ok(Some(parts))
  }
}
