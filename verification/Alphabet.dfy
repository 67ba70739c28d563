/** Alphabetical order of strings, by the first place where they differ. */
module Alphabet {
  /** `a` comes before `b`, or is its beginning: they agree up to a place where `a` ends or has the lower character. */
  ghost predicate Precedes(a: string, b: string) {
    exists k :: AgreesUpTo(a, b, k) && (k == |a| || (k < |b| && a[k] < b[k]))
  }

  ghost predicate AgreesUpTo(a: string, b: string, k: int) {
    0 <= k <= |a| && k <= |b| && a[..k] == b[..k]
  }
}
