/**
 * Python's `str.strip()` with no argument: removes leading and trailing
 * characters for which `str.isspace()` holds.
 */
module Text {

  /** The characters Python's `str.isspace()` accepts. */
  predicate IsSpace(c: char)
  {
    || ('\t' <= c <= '\r')                  // tab, line feed, vertical tab, form feed, carriage return
    || ('\U{1C}' <= c <= '\U{1F}')          // file, group, record and unit separators
    || c == ' ' || c == '\U{85}' || c == '\U{A0}' || c == '\U{1680}'
    || ('\U{2000}' <= c <= '\U{200A}')      // en quad .. hair space
    || c == '\U{2028}' || c == '\U{2029}' || c == '\U{202F}' || c == '\U{205F}' || c == '\U{3000}'
  }

  /** `s` holds at least one character that is not white space. */
  predicate HasContent(s: string)
  {
    exists i :: 0 <= i < |s| && !IsSpace(s[i])
  }

  /** How many white-space characters `s` starts with: where `s.lstrip()` begins. */
  function LeadingSpace(s: string): (n: nat)
    ensures n <= |s|
    ensures forall i :: 0 <= i < n ==> IsSpace(s[i])
    ensures n < |s| ==> !IsSpace(s[n])
  {
    if s != [] && IsSpace(s[0]) then 1 + LeadingSpace(s[1..]) else 0
  }

  /** How many white-space characters `s` ends with: where `s.rstrip()` ends. */
  function TrailingSpace(s: string): (n: nat)
    ensures n <= |s|
    ensures forall i :: |s| - n <= i < |s| ==> IsSpace(s[i])
    ensures n < |s| ==> !IsSpace(s[|s| - n - 1])
  {
    if s != [] && IsSpace(s[|s| - 1]) then 1 + TrailingSpace(s[..|s| - 1]) else 0
  }

  /**
   * `s.strip()`: the slice of `s` between its leading and its trailing white
   * space.  It is empty exactly when `s` is all white space, otherwise it
   * starts and ends with a character that is not, and everything of `s`
   * around it is white space.
   */
  function Strip(s: string): (r: string)
    ensures r == [] <==> !HasContent(s)
    ensures r != [] ==> !IsSpace(r[0]) && !IsSpace(r[|r| - 1])
    ensures LeadingSpace(s) + |r| <= |s| && r == s[LeadingSpace(s)..LeadingSpace(s) + |r|]
    ensures forall i :: 0 <= i < LeadingSpace(s) ==> IsSpace(s[i])
    ensures forall i :: LeadingSpace(s) + |r| <= i < |s| ==> IsSpace(s[i])
  {
    var lo := LeadingSpace(s);
    if lo == |s| then
      []
    else
      var hi := |s| - TrailingSpace(s);
      assert HasContent(s) by {
        assert !IsSpace(s[lo]);
      }
      s[lo..hi]
  }

  /**
   * The document text `a + " " + b`: since the separator is white space,
   * it has content exactly when one of the two parts has.
   */
  lemma JoinedHasContent(a: string, b: string)
    ensures HasContent(a + " " + b) <==> HasContent(a) || HasContent(b)
  {
    var j := a + " " + b;
    if HasContent(j) {
      var i :| 0 <= i < |j| && !IsSpace(j[i]);
      if i < |a| {
        assert a[i] == j[i];
      } else {
        assert i > |a|;
        assert b[i - |a| - 1] == j[i];
      }
    }
    if HasContent(a) {
      var i :| 0 <= i < |a| && !IsSpace(a[i]);
      assert j[i] == a[i];
    }
    if HasContent(b) {
      var i :| 0 <= i < |b| && !IsSpace(b[i]);
      assert j[|a| + 1 + i] == b[i];
    }
  }
}
