/** Python's `str.strip(chars)`: removes every leading and every trailing
    character that occurs in `chars`. Python reads the argument string as a
    set of characters (not as a prefix or suffix), so it is a set here. As in CPython, the start index
    is found first and the end index is then searched no further left than
    the start. */
module PyStrip {

  /** The index of the first character of `s` at or after `i` that is not in
      `chars` (or `|s|`). */
  function StripStart(s: string, chars: set<char>, i: nat): (k: nat)
    requires i <= |s|
    ensures i <= k <= |s|
    ensures forall m :: i <= m < k ==> s[m] in chars
    ensures k < |s| ==> s[k] !in chars
    decreases |s| - i
  {
    if i < |s| && s[i] in chars then StripStart(s, chars, i + 1) else i
  }

  /** Searching leftwards from `j` but not past `lo`: the end of the last run
      of characters not in `chars`. */
  function StripEnd(s: string, chars: set<char>, lo: nat, j: nat): (k: nat)
    requires lo <= j <= |s|
    ensures lo <= k <= j
    ensures forall m :: k <= m < j ==> s[m] in chars
    ensures k > lo ==> s[k - 1] !in chars
    decreases j
  {
    if j > lo && s[j - 1] in chars then StripEnd(s, chars, lo, j - 1) else j
  }

  /** `s.strip(chars)`. */
  function Strip(s: string, chars: set<char>): (r: string)
    ensures r == [] || (r[0] !in chars && r[|r| - 1] !in chars)
  {
    var i := StripStart(s, chars, 0);
    var j := StripEnd(s, chars, i, |s|);
    s[i..j]
  }

  /** `Strip` removes a prefix and a suffix made only of `chars` and keeps a
      contiguous piece of the input. */
  lemma StripIsSlice(s: string, chars: set<char>)
    ensures var i := StripStart(s, chars, 0);
            var j := StripEnd(s, chars, i, |s|);
            Strip(s, chars) == s[i..j]
            && (forall m :: 0 <= m < i ==> s[m] in chars)
            && (forall m :: j <= m < |s| ==> s[m] in chars)
  {
  }

  /** `Strip` introduces no character: everything in the result occurs in
      the input. */
  lemma StripKeepsCharacters(s: string, chars: set<char>, c: char)
    requires c in Strip(s, chars)
    ensures c in s
  {
    var i := StripStart(s, chars, 0);
    var j := StripEnd(s, chars, i, |s|);
    var k :| 0 <= k < |s[i..j]| && s[i..j][k] == c;
    assert s[i + k] == c;
  }

  /** The result of `Strip` is the only slice with those properties: any
      slice `s[i..j]` whose outside is made of `chars` and whose ends are
      not in `chars` (or which is empty, when all of `s` is in `chars`) is
      the stripped string. */
  lemma {:induction false} StripUnique(s: string, chars: set<char>, i: nat, j: nat)
    requires i <= j <= |s|
    requires forall m :: 0 <= m < i ==> s[m] in chars
    requires forall m :: j <= m < |s| ==> s[m] in chars
    requires i < j ==> s[i] !in chars && s[j - 1] !in chars
    requires i == j ==> forall m :: 0 <= m < |s| ==> s[m] in chars
    ensures Strip(s, chars) == s[i..j]
  {
    var a := StripStart(s, chars, 0);
    var b := StripEnd(s, chars, a, |s|);
    if i < j {
      assert a == i;
      assert b == j;
    } else {
      assert a == |s|;
      assert b == |s|;
    }
  }

  /** Stripping twice is stripping once. */
  lemma {:induction false} StripIdempotent(s: string, chars: set<char>)
    ensures Strip(Strip(s, chars), chars) == Strip(s, chars)
  {
    var r := Strip(s, chars);
    StripUnique(r, chars, 0, |r|);
    assert r[0..|r|] == r;
  }
}
