/** Resolving the source location of every live log statement from the
    DWARF debug information (elf2table/src/lib.rs, `get_locations`,
    `exprloc2address`, `file_index_to_path`).

    A compilation unit is given as the list of its debugging entries in
    depth-first pre-order, each with the depth change `next_dfs` reports, its
    tag and its attributes. String attributes carry their text, or
    `Unreadable` when the string table lookup or the UTF-8 check fails. A
    location expression is the list of operations its parse yields. */
module DwarfLocations {
  import opened Common

  datatype Tag = Namespace | Variable | OtherTag

  datatype AttrName = NameAttr | LinkageNameAttr | DeclFileAttr | DeclLineAttr | LocationAttr | OtherAttr

  datatype StrRef = Readable(text: string) | Unreadable

  /** One operation of a location expression. */
  datatype Op = AddressOp(address: nat) | OtherOp

  datatype AttrValue =
    | DebugStr(str: StrRef)
    | FileIndex(index: nat)
    | Udata(value: nat)
    | Exprloc(ops: seq<Op>)
    | OtherValue

  /** The attribute value forms the source matches on. */
  datatype Kind = StrKind | FileIndexKind | UdataKind | ExprlocKind | OtherKind

  datatype Attr = Attr(name: AttrName, value: AttrValue)

  datatype Entry = Entry(depthDelta: int, tag: Tag, attrs: seq<Attr>)

  /** A line-program file entry: its optional directory and its path name. */
  datatype FileEntry = FileEntry(directory: Option<Path>, name: Path)

  /** A compilation unit: its entries, its compilation directory and the file
      table of its line program (keyed by file index as the header resolves it). */
  datatype Unit = Unit(entries: seq<Entry>, compDir: Option<Path>, lineProgram: Option<map<nat, FileEntry>>)

  datatype Location = Location(file: Path, line: nat, modulePath: string)

  datatype LocError =
    | EmptyDwarf
    | UnreadableString
    | NoAddressOp
    | FileIndexZero
    | NoLineProgram
    | NoFileEntry(index: nat)
    | Collision(address: nat, previous: Location, current: Location)

  /** The state of the entry walk: cumulative depth, namespace segments and
      the locations found so far. */
  datatype Walk = Walk(depth: int, segments: seq<string>, locs: map<nat, Location>)

  const LogStatementName := "DEFMT_LOG_STATEMENT"
  const ModuleSeparator := "::"
  const UsizeModulus := 0x1_0000_0000_0000_0000

  function KindOf(v: AttrValue): Kind {
    match v
    case DebugStr(_) => StrKind
    case FileIndex(_) => FileIndexKind
    case Udata(_) => UdataKind
    case Exprloc(_) => ExprlocKind
    case OtherValue => OtherKind
  }

  predicate Matches(a: Attr, n: AttrName, k: Kind) {
    a.name == n && KindOf(a.value) == k
  }

  /** `attrs[j]` is the last attribute named `n` with a value of kind `k`. */
  ghost predicate LastMatch(attrs: seq<Attr>, n: AttrName, k: Kind, j: int) {
    && 0 <= j < |attrs|
    && Matches(attrs[j], n, k)
    && forall i :: j < i < |attrs| ==> !Matches(attrs[i], n, k)
  }

  /** The attribute loop of a variable entry for one field: each matching
      attribute overwrites the previous one. */
  function LastValue(attrs: seq<Attr>, n: AttrName, k: Kind): (r: Option<AttrValue>)
    ensures r.Some? ==> KindOf(r.value) == k
    ensures r.None? <==> forall j :: 0 <= j < |attrs| ==> !Matches(attrs[j], n, k)
    decreases |attrs|
  {
    if |attrs| == 0 then None
    else if Matches(attrs[|attrs| - 1], n, k) then Some(attrs[|attrs| - 1].value)
    else
      var r := LastValue(attrs[..|attrs| - 1], n, k);
      assert forall j :: 0 <= j < |attrs| - 1 ==> attrs[..|attrs| - 1][j] == attrs[j];
      r
  }

  /** The value found is that of the last matching attribute. */
  lemma {:induction false} LastValueIsLast(attrs: seq<Attr>, n: AttrName, k: Kind)
    ensures LastValue(attrs, n, k).Some? ==>
      exists j :: LastMatch(attrs, n, k, j) && attrs[j].value == LastValue(attrs, n, k).value
    decreases |attrs|
  {
    if |attrs| > 0 {
      if Matches(attrs[|attrs| - 1], n, k) {
        assert LastMatch(attrs, n, k, |attrs| - 1);
      } else {
        var prefix := attrs[..|attrs| - 1];
        LastValueIsLast(prefix, n, k);
        if LastValue(prefix, n, k).Some? {
          var j :| LastMatch(prefix, n, k, j) && prefix[j].value == LastValue(prefix, n, k).value;
          assert forall i :: j < i < |prefix| ==> prefix[i] == attrs[i];
          assert LastMatch(attrs, n, k, j);
        }
      }
    }
  }

  /** `depth as usize`: a negative isize wraps around. */
  function AsUsize(x: int): nat {
    x % UsizeModulus
  }

  /** The depth is an `isize` and the stack fits in memory. */
  predicate MachineSized(segments: seq<string>, depth: int) {
    -UsizeModulus / 2 <= depth < UsizeModulus / 2 && |segments| < UsizeModulus / 2
  }

  /** The pop loop of a namespace entry: one pop for each value from the
      depth (as an unsigned machine word) up to one past the stack length.
      It keeps the first `depth - 1` segments when the depth is in range,
      and pops nothing at a negative depth, which wraps to a huge `usize`. */
  function PopScopes(segments: seq<string>, depth: int): (r: seq<string>)
    ensures StartsWith(segments, r)
    ensures MachineSized(segments, depth) && 1 <= depth <= |segments| + 1 ==> |r| == depth - 1
    ensures MachineSized(segments, depth) && depth == 0 ==> r == []
    ensures MachineSized(segments, depth) && depth > |segments| ==> r == segments
    ensures MachineSized(segments, depth) && depth < 0 ==> r == segments
  {
    var start := AsUsize(depth);
    var pops := if start < |segments| + 1 then |segments| + 1 - start else 0;
    if pops >= |segments| then [] else segments[..|segments| - pops]
  }

  /** The attribute loop of a namespace entry: every readable name pops the
      scopes at or below the current depth and pushes itself. */
  function EnterNamespace(w: Walk, attrs: seq<Attr>): Result<Walk, LocError>
    decreases |attrs|
  {
    if |attrs| == 0 then Ok(w)
    else
      var w1 :- EnterNamespace(w, attrs[..|attrs| - 1]);
      var a := attrs[|attrs| - 1];
      if a.name == NameAttr && a.value.DebugStr? then
        match a.value.str
        case Unreadable => Err(UnreadableString)
        case Readable(s) => Ok(w1.(segments := PopScopes(w1.segments, w1.depth) + [s]))
      else Ok(w1)
  }

  /** `linkage_name.splitn(2, '@').next()`: the text before the first `@`,
      or all of it when there is none. */
  function CutAt(s: string, c: char): (r: string)
    ensures StartsWith(s, r)
    ensures forall i :: 0 <= i < |r| ==> r[i] != c
    ensures r == s || s[|r|] == c
  {
    if |s| == 0 then ""
    else if s[0] == c then ""
    else [s[0]] + CutAt(s[1..], c)
  }

  /** `exprloc2address`: the address of the first Address operation. */
  function ExprlocToAddress(ops: seq<Op>): (r: Result<nat, LocError>)
    ensures r.Ok? ==> exists j :: 0 <= j < |ops| && ops[j] == AddressOp(r.value) && forall i :: 0 <= i < j ==> !ops[i].AddressOp?
    ensures r.Err? <==> forall i :: 0 <= i < |ops| ==> !ops[i].AddressOp?
    ensures r.Err? ==> r.error == NoAddressOp
  {
    if |ops| == 0 then Err(NoAddressOp)
    else if ops[0].AddressOp? then Ok(ops[0].address)
    else
      var r := ExprlocToAddress(ops[1..]);
      assert forall i :: 1 <= i < |ops| ==> ops[1..][i - 1] == ops[i];
      assert r.Ok? ==> exists j :: 0 <= j < |ops| && ops[j] == AddressOp(r.value) && forall i :: 0 <= i < j ==> !ops[i].AddressOp? by {
        if r.Ok? {
          var j :| 0 <= j < |ops[1..]| && ops[1..][j] == AddressOp(r.value) && forall i :: 0 <= i < j ==> !ops[1..][i].AddressOp?;
          assert ops[j + 1] == AddressOp(r.value);
        }
      }
      r
  }

  /** `file_index_to_path`: index 0 means "no file"; a relative directory is
      placed under the compilation directory; the file name comes last. */
  function FileIndexToPath(index: nat, unit: Unit): (r: Result<Path, LocError>)
    ensures index == 0 ==> r == Err(FileIndexZero)
    ensures r.Ok? ==> unit.lineProgram.Some? && index in unit.lineProgram.value
    ensures r.Ok? ==> EndsWith(r.value.components, unit.lineProgram.value[index].name.components)
    ensures r.Ok? && unit.lineProgram.value[index].name.absolute ==> r.value == unit.lineProgram.value[index].name
  {
    if index == 0 then Err(FileIndexZero)
    else if unit.lineProgram.None? then Err(NoLineProgram)
    else if index !in unit.lineProgram.value then Err(NoFileEntry(index))
    else
      var file := unit.lineProgram.value[index];
      var dirPath :=
        match file.directory
        case None => EmptyPath
        case Some(dir) =>
          var base := if !dir.absolute && unit.compDir.Some? then PathPush(EmptyPath, unit.compDir.value) else EmptyPath;
          PathPush(base, dir);
      Ok(PathPush(dirPath, file.name))
  }

  /** A variable entry: a log statement that survived linking becomes a
      location at its address; every other variable is passed over. */
  function VisitVariable(w: Walk, attrs: seq<Attr>, unit: Unit, live: set<string>): (r: Result<Walk, LocError>)
    ensures r.Ok? ==> r.value.depth == w.depth && r.value.segments == w.segments
    ensures r.Ok? ==> forall a :: a in w.locs ==> a in r.value.locs && r.value.locs[a] == w.locs[a]
  {
    var name := LastValue(attrs, NameAttr, StrKind);
    var linkage := LastValue(attrs, LinkageNameAttr, StrKind);
    var file := LastValue(attrs, DeclFileAttr, FileIndexKind);
    var line := LastValue(attrs, DeclLineAttr, UdataKind);
    var loc := LastValue(attrs, LocationAttr, ExprlocKind);
    if name.Some? && linkage.Some? && file.Some? && line.Some? && loc.Some? then
      if name.value.str.Unreadable? || linkage.value.str.Unreadable? then Err(UnreadableString)
      else if name.value.str.text != LogStatementName then Ok(w)
      else if CutAt(linkage.value.str.text, '@') !in live then Ok(w)
      else RecordSite(w, loc.value.ops, file.value.index, line.value.value, unit)
    else Ok(w)
  }

  /** A live log statement: its address and file must resolve, and its
      address must be new; the module is the current segment stack. */
  function RecordSite(w: Walk, ops: seq<Op>, fileIndex: nat, line: nat, unit: Unit): (r: Result<Walk, LocError>)
    ensures r.Ok? ==> r.value.depth == w.depth && r.value.segments == w.segments
    ensures r.Ok? ==> forall a :: a in w.locs ==> a in r.value.locs && r.value.locs[a] == w.locs[a]
  {
    var addr :- ExprlocToAddress(ops);
    var path :- FileIndexToPath(fileIndex, unit);
    var location := Location(path, line, Join(w.segments, ModuleSeparator));
    if addr in w.locs then Err(Collision(addr, w.locs[addr], location))
    else Ok(w.(locs := w.locs[addr := location]))
  }

  /** One turn of the `next_dfs` loop. */
  function VisitEntry(w: Walk, e: Entry, unit: Unit, live: set<string>): (r: Result<Walk, LocError>)
    ensures r.Ok? ==> r.value.depth == w.depth + e.depthDelta
    ensures r.Ok? && e.tag != Namespace ==> r.value.segments == w.segments
    ensures r.Ok? && e.tag != Variable ==> r.value.locs == w.locs
  {
    var w1 := w.(depth := w.depth + e.depthDelta);
    match e.tag
    case Namespace => EnterNamespaceKeeps(w1, e.attrs); EnterNamespace(w1, e.attrs)
    case Variable => VisitVariable(w1, e.attrs, unit, live)
    case OtherTag => Ok(w1)
  }

  /** Entering a namespace changes only the segments. */
  lemma {:induction false} EnterNamespaceKeeps(w: Walk, attrs: seq<Attr>)
    ensures EnterNamespace(w, attrs).Ok? ==>
      EnterNamespace(w, attrs).value.depth == w.depth && EnterNamespace(w, attrs).value.locs == w.locs
    decreases |attrs|
  {
    if |attrs| > 0 {
      EnterNamespaceKeeps(w, attrs[..|attrs| - 1]);
    }
  }

  /** The entries of a unit after its root, in order. */
  function VisitEntries(w: Walk, entries: seq<Entry>, unit: Unit, live: set<string>): Result<Walk, LocError>
    decreases |entries|
  {
    if |entries| == 0 then Ok(w)
    else
      var w1 :- VisitEntries(w, entries[..|entries| - 1], unit, live);
      VisitEntry(w1, entries[|entries| - 1], unit, live)
  }

  /** One unit: the root entry must exist and is skipped; depth and
      segments start afresh, the locations carry over. */
  function VisitUnit(locs: map<nat, Location>, unit: Unit, live: set<string>): Result<map<nat, Location>, LocError> {
    if |unit.entries| == 0 then Err(EmptyDwarf)
    else
      var w :- VisitEntries(Walk(0, [], locs), unit.entries[1..], unit, live);
      Ok(w.locs)
  }

  /** `get_locations`: every unit in turn; `live` is the set of strings of the
      interner table. */
  function GetLocations(units: seq<Unit>, live: set<string>): Result<map<nat, Location>, LocError>
    decreases |units|
  {
    if |units| == 0 then Ok(map[])
    else
      var locs :- GetLocations(units[..|units| - 1], live);
      VisitUnit(locs, units[|units| - 1], live)
  }
}
