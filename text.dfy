/**
 * `trim`: strips leading and then trailing white space from a directory name
 * taken from a comma-separated option, in place.
 */
module Text {
  /** `isspace` in the "C" locale: space, tab, newline, vertical tab, form
      feed and carriage return. */
  predicate IsSpace(c: char) {
    c == ' ' || c == '\t' || c == '\n' || c == '\U{B}' || c == '\U{C}' || c == '\r'
  }

  /** `s[start..end]` is `s` with its white space stripped at both ends: all
      of `s` outside the slice is white space, and a non-empty slice starts
      and ends with a character that is not. */
  ghost predicate TrimmedAt(s: string, start: nat, end: nat) {
    && start <= end <= |s|
    && (forall k :: 0 <= k < start ==> IsSpace(s[k]))
    && (forall k :: end <= k < |s| ==> IsSpace(s[k]))
    && (start < end ==> !IsSpace(s[start]) && !IsSpace(s[end - 1]))
  }

  /** The stripped slice is unique: any two ways of stripping `s` give the
      same string. */
  lemma TrimUnique(s: string, i: nat, j: nat, i': nat, j': nat)
    requires TrimmedAt(s, i, j) && TrimmedAt(s, i', j')
    ensures s[i..j] == s[i'..j']
  {
  }

  /** Stripping a stripped string changes nothing. */
  lemma TrimIdempotent(s: string, i: nat, j: nat)
    requires TrimmedAt(s, i, j)
    ensures TrimmedAt(s[i..j], 0, j - i)
  {
  }

  /** `trim(s)`: erase the characters before the first one that is not white
      space, then those after the last one that is not. */
  method Trim(s: string) returns (t: string)
    ensures exists start: nat, end: nat :: TrimmedAt(s, start, end) && t == s[start..end]
  {
    var start := 0;
    while start < |s| && IsSpace(s[start])
      invariant start <= |s|
      invariant forall k :: 0 <= k < start ==> IsSpace(s[k])
    {
      start := start + 1;
    }
    t := s[start..];
    var end := |t|;
    while end > 0 && IsSpace(t[end - 1])
      invariant 0 <= end <= |t|
      invariant forall k :: end <= k < |t| ==> IsSpace(t[k])
    {
      end := end - 1;
    }
    t := t[..end];
    assert TrimmedAt(s, start, start + end);
  }
}
