/** Python's `str.strip()` with no argument, and the truthiness test on optional strings. */
module Text {
  import opened Wrappers

  /** Python truthiness of an optional string: present and not empty. */
  predicate Truthy(o: Option<string>) {
    o.Some? && o.value != []
  }

  /** The characters Python's `str.isspace()` accepts, which is the set `str.strip()` removes. */
  predicate IsSpace(c: char) {
    || ('\t' <= c <= '\r')
    || ('\U{1C}' <= c <= ' ')
    || c == '\U{85}' || c == '\U{A0}' || c == '\U{1680}'
    || ('\U{2000}' <= c <= '\U{200A}')
    || c == '\U{2028}' || c == '\U{2029}' || c == '\U{202F}' || c == '\U{205F}' || c == '\U{3000}'
  }

  predicate AllSpace(s: string) {
    forall k :: 0 <= k < |s| ==> IsSpace(s[k])
  }

  /** True when `s` neither starts nor ends with whitespace. */
  predicate Trimmed(s: string) {
    s == [] || (!IsSpace(s[0]) && !IsSpace(s[|s| - 1]))
  }

  /** Length of the run of whitespace at the front of `s`. */
  function LeadingSpace(s: string): (i: nat)
    ensures i <= |s|
    ensures forall k :: 0 <= k < i ==> IsSpace(s[k])
    ensures i < |s| ==> !IsSpace(s[i])
  {
    if |s| > 0 && IsSpace(s[0]) then 1 + LeadingSpace(s[1..]) else 0
  }

  /** Position just after the last non-whitespace character of `s` (0 if there is none). */
  function TextEnd(s: string): (j: nat)
    ensures j <= |s|
    ensures AllSpace(s[j..])
    ensures j > 0 ==> !IsSpace(s[j - 1])
  {
    if |s| > 0 && IsSpace(s[|s| - 1]) then TextEnd(s[..|s| - 1]) else |s|
  }

  /** `s.strip()`: `s` without its leading and trailing whitespace. */
  function Strip(s: string): (r: string)
    ensures Trimmed(r)
    ensures r == [] <==> AllSpace(s)
    ensures |r| <= |s|
  {
    var i := LeadingSpace(s);
    if i == |s| then
      assert AllSpace(s);
      []
    else
      var j := TextEnd(s);
      assert i < j;
      assert !AllSpace(s) by { assert !IsSpace(s[i]); }
      s[i..j]
  }

  /** Stripping only cuts whitespace: the result is a contiguous piece of the input with
      nothing but whitespace before and after it. */
  lemma StripCutsOnlySpace(s: string)
    ensures exists i :: 0 <= i <= |s| - |Strip(s)| && AllSpace(s[..i]) && s[i..i + |Strip(s)|] == Strip(s) && AllSpace(s[i + |Strip(s)|..])
  {
    var i := LeadingSpace(s);
    assert AllSpace(s[..i]);
    if i == |s| {
      assert s[i..i] == [];
    }
  }

  /** Whitespace in front of a text that starts with a non-space is exactly what is skipped. */
  lemma {:induction false} LeadingSpaceOfPadded(a: string, u: string)
    requires AllSpace(a)
    requires u == [] || !IsSpace(u[0])
    ensures LeadingSpace(a + u) == |a|
  {
    if a != [] {
      assert (a + u)[0] == a[0];
      assert (a + u)[1..] == a[1..] + u;
      LeadingSpaceOfPadded(a[1..], u);
    } else {
      assert a + u == u;
    }
  }

  /** Whitespace behind a text that ends with a non-space is exactly what is cut off. */
  lemma {:induction false} TextEndOfPadded(u: string, b: string)
    requires AllSpace(b)
    requires u == [] || !IsSpace(u[|u| - 1])
    ensures TextEnd(u + b) == |u|
  {
    if b != [] {
      var s := u + b;
      assert s[|s| - 1] == b[|b| - 1];
      assert s[..|s| - 1] == u + b[..|b| - 1];
      TextEndOfPadded(u, b[..|b| - 1]);
    } else {
      assert u + b == u;
    }
  }

  /** Stripping is characterised by its result: padding a trimmed text with whitespace
      on both sides and stripping it gives the text back. */
  lemma StripPadded(a: string, t: string, b: string)
    requires AllSpace(a) && AllSpace(b) && Trimmed(t)
    ensures Strip(a + t + b) == t
  {
    var s := a + t + b;
    if t == [] {
      assert AllSpace(s) by {
        forall k | 0 <= k < |s| ensures IsSpace(s[k]) {
          if k < |a| { assert s[k] == a[k]; } else { assert s[k] == b[k - |a|]; }
        }
      }
    } else {
      assert s == a + (t + b);
      LeadingSpaceOfPadded(a, t + b);
      assert s == (a + t) + b;
      TextEndOfPadded(a + t, b);
      assert s[|a|] == t[0];
      assert s[|a|..|a| + |t|] == t;
    }
  }

  /** Stripping twice is the same as stripping once. */
  lemma StripIdempotent(s: string)
    ensures Strip(Strip(s)) == Strip(s)
  {
    var t := Strip(s);
    StripPadded([], t, []);
    assert [] + t + [] == t;
  }
}
