/**
 * The part of pathlib used to derive output paths: `str(Path(p).with_suffix(""))`
 * on a path that is already in the normal form pathlib prints (no repeated
 * separators, no "." components, no trailing separator).
 *
 * pathlib splits off the final component (the name), and the name's suffix
 * starts at its last '.' at index i, but only when 0 < i < |name| - 1: a
 * leading dot (".bashrc") or a trailing one ("a.") is not a suffix.
 * `with_suffix` refuses a path whose name is empty ("", "/", ".").
 */
module Paths {
  import opened Wrappers

  datatype PathError = EmptyName

  /** Index of the last occurrence of c in s, or -1. */
  function LastIndexOf(s: string, c: char): (r: int)
    ensures -1 <= r < |s|
    ensures r >= 0 ==> s[r] == c
    ensures forall k :: r < k < |s| ==> s[k] != c
  {
    if s == [] then -1
    else if s[|s| - 1] == c then |s| - 1
    else LastIndexOf(s[..|s| - 1], c)
  }

  /** Everything up to and including the last '/', i.e. the parent with its separator. */
  function Directory(p: string): string
  {
    p[..LastIndexOf(p, '/') + 1]
  }

  /** The final component of the path. */
  function Name(p: string): string
  {
    p[LastIndexOf(p, '/') + 1..]
  }

  /** Start of the name's suffix, or -1 when the name has none. */
  function SuffixStart(name: string): (i: int)
    ensures -1 <= i < |name|
    ensures i >= 0 ==> 0 < i < |name| - 1 && name[i] == '.'
  {
    var i := LastIndexOf(name, '.');
    if 0 < i < |name| - 1 then i else -1
  }

  /** pathlib's `PurePath.suffix`: "" or a string starting with its one '.'. */
  function Suffix(p: string): string
  {
    var name := Name(p);
    var i := SuffixStart(name);
    if i < 0 then "" else name[i..]
  }

  /** `str(Path(p).with_suffix(""))`. */
  function WithoutSuffix(p: string): (r: Result<string, PathError>)
    ensures r.Failure? <==> Name(p) == "" || Name(p) == "."
    ensures r.Success? ==> r.value + Suffix(p) == p
    ensures r.Success? ==> Directory(p) <= r.value
    ensures r.Success? ==> LastIndexOf(Suffix(p), '.') <= 0 && LastIndexOf(Suffix(p), '/') < 0
  {
    var name := Name(p);
    if name == "" || name == "." then Failure(EmptyName)
    else
      var i := SuffixStart(name);
      NoSeparatorInName(p);
      if i < 0 then Success(p)
      else
        SplitAtSuffix(p);
        Success(Directory(p) + name[..i])
  }

  /** A path with a suffix is its directory, the name up to the suffix, and the suffix. */
  lemma SplitAtSuffix(p: string)
    requires SuffixStart(Name(p)) >= 0
    ensures var name, i := Name(p), SuffixStart(Name(p));
      && Directory(p) + name[..i] + Suffix(p) == p
      && LastIndexOf(Suffix(p), '.') == 0
      && LastIndexOf(Suffix(p), '/') == -1
  {
    var d, name, i := Directory(p), Name(p), SuffixStart(Name(p));
    NoSeparatorInName(p);
    assert Suffix(p) == name[i..];
    calc {
      d + name[..i] + name[i..];
      d + (name[..i] + name[i..]);
      { assert name[..i] + name[i..] == name; }
      d + name;
    }
    assert name[i..][1..] == name[i + 1..];
    SingleDotSuffix(name, i);
  }

  /** The name holds no separator. */
  lemma NoSeparatorInName(p: string)
    ensures LastIndexOf(Name(p), '/') == -1
    ensures p == Directory(p) + Name(p)
  {
    var j := LastIndexOf(p, '/');
    forall k | 0 <= k < |Name(p)| ensures Name(p)[k] != '/' {
      assert Name(p)[k] == p[j + 1 + k];
    }
    NoOccurrence(Name(p), '/');
  }

  lemma {:induction false} NoOccurrence(s: string, c: char)
    requires forall k :: 0 <= k < |s| ==> s[k] != c
    ensures LastIndexOf(s, c) == -1
  {
    if s != [] {
      NoOccurrence(s[..|s| - 1], c);
    }
  }

  /** The suffix name[i..] starting at the name's last dot has that dot as its only one. */
  lemma SingleDotSuffix(name: string, i: int)
    requires 0 <= i < |name| && i == LastIndexOf(name, '.')
    requires LastIndexOf(name, '/') == -1
    ensures LastIndexOf(name[i..], '.') == 0
    ensures LastIndexOf(name[i..], '/') == -1
  {
    NoOccurrence(name[i..][1..], '.');
    LastIndexAfterPrefix(name[i..], '.');
    forall k | 0 <= k < |name[i..]| ensures name[i..][k] != '/' {
      NoSlashAt(name, i + k);
    }
    NoOccurrence(name[i..], '/');
  }

  lemma NoSlashAt(s: string, k: int)
    requires 0 <= k < |s| && LastIndexOf(s, '/') == -1
    ensures s[k] != '/'
  {
  }

  lemma {:induction false} LastIndexAfterPrefix(s: string, c: char)
    requires |s| > 0 && s[0] == c
    requires LastIndexOf(s[1..], c) == -1
    ensures LastIndexOf(s, c) == 0
  {
    if |s| > 1 {
      assert s[1..][..|s[1..]| - 1] == s[..|s| - 1][1..];
      assert s[|s| - 1] == s[1..][|s[1..]| - 1];
      assert s[|s| - 1] != c;
      LastIndexAfterPrefix(s[..|s| - 1], c);
    }
  }

  /** A fixed string appended to the suffix-less path (the two derived output paths). */
  function DerivedPath(p: string, tail: string): (r: Result<string, PathError>)
    ensures r.Failure? <==> WithoutSuffix(p).Failure?
    ensures r.Success? ==> r.value == WithoutSuffix(p).value + tail
  {
    match WithoutSuffix(p)
    case Success(base) => Success(base + tail)
    case Failure(e) => Failure(e)
  }
}
