/**
 * The parts of `pathlib` the scripts rely on: a path as its list of components,
 * the final component (`.name`), and the `.suffix` / `.stem` split of a name at
 * its last dot. Also `str.lower()`, restricted to ASCII letters.
 */
module Paths {

  /** A path as the sequence of its components: `Path("../photo") / "images"` is `["..", "photo", "images"]`. */
  type Path = seq<string>

  /** `p.name`: the final component, or the empty string for the empty path. */
  function Name(p: Path): string
  {
    if |p| == 0 then "" else p[|p| - 1]
  }

  /** `s.rfind(c)`: the index of the last occurrence of `c`, or -1. */
  function RFind(s: string, c: char): (r: int)
    ensures -1 <= r < |s|
    ensures r >= 0 ==> s[r] == c
    ensures forall j :: r < j < |s| ==> s[j] != c
  {
    if |s| == 0 then -1
    else if s[|s| - 1] == c then |s| - 1
    else RFind(s[..|s| - 1], c)
  }

  /** True when the last dot of `name` splits it into a non-empty stem and a suffix longer than the dot. */
  predicate HasSuffix(name: string)
  {
    0 < RFind(name, '.') < |name| - 1
  }

  /** `PurePath.suffix`: from the last dot on, unless that dot is the first or the last character. */
  function Suffix(name: string): string
  {
    if HasSuffix(name) then name[RFind(name, '.')..] else ""
  }

  /** `PurePath.stem`: the name without its suffix. */
  function Stem(name: string): string
  {
    if HasSuffix(name) then name[..RFind(name, '.')] else name
  }

  /** The stem and the suffix split the name: nothing is lost, and the suffix is one dot and dot-free characters, or empty. */
  lemma StemSuffix(name: string)
    ensures Stem(name) + Suffix(name) == name
    ensures Suffix(name) == "" || (Suffix(name)[0] == '.' && '.' !in Suffix(name)[1..])
  {
  }

  /** Appending an extension (a dot and at least one dot-free character) to a non-empty base makes it the suffix. */
  lemma StemOfExtension(base: string, ext: string)
    requires |base| > 0
    requires |ext| >= 2 && ext[0] == '.' && '.' !in ext[1..]
    ensures Stem(base + ext) == base
    ensures Suffix(base + ext) == ext
  {
    var name := base + ext;
    var i := RFind(name, '.');
    assert name[|base|] == '.';
    assert i == |base|;
    assert name[..i] == base;
    assert name[i..] == ext;
  }

  predicate IsAsciiUpper(c: char) { 'A' <= c <= 'Z' }

  /** `c.lower()` on ASCII: an upper-case letter becomes its lower-case letter, anything else is kept. */
  function LowerChar(c: char): (l: char)
    ensures !IsAsciiUpper(l)
    ensures IsAsciiUpper(c) ==> 'a' <= l <= 'z' && l as int - c as int == 'a' as int - 'A' as int
    ensures !IsAsciiUpper(c) ==> l == c
  {
    if IsAsciiUpper(c) then (c as int - 'A' as int + 'a' as int) as char else c
  }

  /** `s.lower()` on ASCII: no upper-case letter remains, each becomes its lower-case letter, and nothing else changes. */
  function Lower(s: string): (r: string)
    ensures |r| == |s|
    ensures forall i :: 0 <= i < |r| ==> !IsAsciiUpper(r[i])
    ensures forall i :: 0 <= i < |s| ==> !IsAsciiUpper(s[i]) ==> r[i] == s[i]
    ensures forall i :: 0 <= i < |s| ==> IsAsciiUpper(s[i]) ==>
      'a' <= r[i] <= 'z' && r[i] as int - s[i] as int == 'a' as int - 'A' as int
  {
    seq(|s|, i requires 0 <= i < |s| => LowerChar(s[i]))
  }

  /** Lowering twice is lowering once. */
  lemma LowerIdempotent(s: string)
    ensures Lower(Lower(s)) == Lower(s)
  {
  }
}
