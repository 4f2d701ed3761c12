/** `Path.glob` with one `*` between a fixed prefix and a fixed suffix,
    over the names a directory lists. */
module Globs {
  import opened Text
  import opened Seqs

  /** `fnmatch` of `<prefix>*<suffix>`: the star matches any run of
      characters, so prefix and suffix may not overlap. */
  predicate Matches(prefix: string, suffix: string, name: string) {
    |prefix| + |suffix| <= |name| && StartsWith(name, prefix) && EndsWith(name, suffix)
  }

  function Pattern(prefix: string, suffix: string): string -> bool {
    name => Matches(prefix, suffix, name)
  }

  /** `dir.glob(prefix + '*' + suffix)`, in listing order. */
  function Glob(names: seq<string>, prefix: string, suffix: string): (r: seq<string>)
    ensures forall n :: n in r <==> n in names && Matches(prefix, suffix, n)
  {
    Filter(names, Pattern(prefix, suffix))
  }
}
