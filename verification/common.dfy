/** Shared vocabulary of the model: failure-compatible wrappers, bytes,
    string helpers and the path operations the host tools rely on
    (appending one path to another, stripping a directory prefix). */
module Common {

  /** An optional value. */
  datatype Option<+T> = None | Some(value: T)

  /** A value or an error; usable with `:-` like a Rust `?`. */
  datatype Result<+T, +E> = Ok(value: T) | Err(error: E) {

    predicate IsFailure() {
      Err?
    }

    function PropagateFailure<U>(): Result<U, E>
      requires Err?
    {
      Err(error)
    }

    function Extract(): T
      requires Ok?
    {
      value
    }
  }

  /** An unsigned 8-bit value. */
  newtype byte = x: int | 0 <= x < 256

  predicate StartsWith<T(==)>(s: seq<T>, prefix: seq<T>) {
    |prefix| <= |s| && s[..|prefix|] == prefix
  }

  predicate EndsWith<T(==)>(s: seq<T>, suffix: seq<T>) {
    |suffix| <= |s| && s[|s| - |suffix|..] == suffix
  }

  /** The pieces of `chunks`, one after another. */
  function Concat<T>(chunks: seq<seq<T>>): seq<T>
    decreases |chunks|
  {
    if |chunks| == 0 then [] else chunks[0] + Concat(chunks[1..])
  }

  /** The elements of `parts`, separated by `sep` (Rust's `[String]::join`). */
  function Join(parts: seq<string>, sep: string): string {
    if |parts| == 0 then ""
    else if |parts| == 1 then parts[0]
    else Join(parts[..|parts| - 1], sep) + sep + parts[|parts| - 1]
  }

  /** A filesystem path as the path library sees it: whether it starts at
      the root directory, and its sequence of normal components. */
  datatype Path = Path(absolute: bool, components: seq<string>)

  /** The path `PathBuf::new()` starts from. */
  const EmptyPath := Path(false, [])

  /** `PathBuf::push`: an absolute path replaces what was there, a relative
      one is appended component by component. */
  function PathPush(base: Path, p: Path): (r: Path)
    ensures p.absolute ==> r == p
    ensures EndsWith(r.components, p.components)
    ensures r.absolute == (p.absolute || base.absolute)
    ensures !p.absolute ==> StartsWith(r.components, base.components)
    ensures !p.absolute ==> |r.components| == |base.components| + |p.components|
  {
    if p.absolute then p else Path(base.absolute, base.components + p.components)
  }

  /** `p` lies under `base`: same root, and `base`'s components come first. */
  predicate Under(p: Path, base: Path) {
    p.absolute == base.absolute && StartsWith(p.components, base.components)
  }

  /** `Path::strip_prefix`: the relative rest of `p` when `base` is a
      component-wise prefix of it (roots included), nothing otherwise.
      Rust also strips an empty relative base off an absolute path; the
      base here is always the absolute current directory, where the two
      agree. */
  function StripPrefix(p: Path, base: Path): (r: Option<Path>)
    ensures r.Some? <==> Under(p, base)
    ensures r.Some? ==> !r.value.absolute && |r.value.components| == |p.components| - |base.components|
  {
    if Under(p, base) then Some(Path(false, p.components[|base.components|..]))
    else None
  }

  /** Stripping a prefix and pushing the rest back onto it gives the original
      path, so a stripped path still names the same file. */
  lemma StripThenPush(p: Path, base: Path)
    requires StripPrefix(p, base).Some?
    ensures PathPush(base, StripPrefix(p, base).value) == p
  {
    var rest := StripPrefix(p, base).value;
    assert base.components + rest.components == p.components;
  }

  /** Pushing a relative path onto a base and stripping that base again
      gives back the relative path. */
  lemma PushThenStrip(base: Path, rel: Path)
    requires !rel.absolute
    ensures StripPrefix(PathPush(base, rel), base) == Some(rel)
  {
    var p := PathPush(base, rel);
    assert p.components[..|base.components|] == base.components;
    assert p.components[|base.components|..] == rel.components;
  }
}
