/** DeleteEmptySlices of sfd.go: drop the empty strings from a list,
    keeping the others in order. The stylesheet callback uses it to find the
    last capture group that matched something. */
module Slices {

  /** a can be obtained from b by deleting elements. */
  predicate IsSubsequence(a: seq<string>, b: seq<string>)
    decreases |b|
  {
    if |a| == 0 then true
    else if |b| == 0 then false
    else if a[0] == b[0] then IsSubsequence(a[1..], b[1..])
    else IsSubsequence(a, b[1..])
  }

  function DeleteEmptySlices(s: seq<string>): (r: seq<string>)
    ensures |r| <= |s|
    ensures forall x :: x in r <==> x in s && x != ""
    ensures forall x :: x != "" ==> multiset(r)[x] == multiset(s)[x]
    ensures IsSubsequence(r, s)
  {
    if |s| == 0 then []
    else if s[0] == "" then
      var r' := DeleteEmptySlices(s[1..]);
      assert s == [s[0]] + s[1..];
      assert |r'| > 0 ==> r'[0] in r' && r'[0] != s[0];
      r'
    else
      var r' := DeleteEmptySlices(s[1..]);
      assert s == [s[0]] + s[1..];
      assert ([s[0]] + r')[1..] == r';
      [s[0]] + r'
  }

  /** On a list without empty strings the filter changes nothing. */
  lemma {:induction false} DeleteEmptySlicesIdentity(s: seq<string>)
    requires "" !in s
    ensures DeleteEmptySlices(s) == s
  {
    if |s| > 0 {
      assert s[0] in s;
      assert forall x :: x in s[1..] ==> x in s;
      DeleteEmptySlicesIdentity(s[1..]);
      assert s == [s[0]] + s[1..];
    }
  }

  /** Filtering twice is filtering once. */
  lemma DeleteEmptySlicesIdempotent(s: seq<string>)
    ensures DeleteEmptySlices(DeleteEmptySlices(s)) == DeleteEmptySlices(s)
  {
    DeleteEmptySlicesIdentity(DeleteEmptySlices(s));
  }

  /** A list whose first element is not empty keeps it in front. */
  lemma DeleteEmptySlicesKeepsHead(s: seq<string>)
    requires |s| > 0 && s[0] != ""
    ensures |DeleteEmptySlices(s)| > 0 && DeleteEmptySlices(s)[0] == s[0]
  {
  }

  /** The last element of the filtered list is the last non-empty element of
      the input: the element at the highest index j with s[j] != "". */
  lemma {:induction false} DeleteEmptySlicesLast(s: seq<string>, j: nat)
    requires j < |s| && s[j] != ""
    requires forall i :: j < i < |s| ==> s[i] == ""
    ensures |DeleteEmptySlices(s)| > 0
    ensures DeleteEmptySlices(s)[|DeleteEmptySlices(s)| - 1] == s[j]
    decreases |s|
  {
    if j > 0 {
      assert s[0] == "" || s[0] != "";
      DeleteEmptySlicesLast(s[1..], j - 1);
    } else {
      DeleteEmptyAllEmpty(s[1..]);
    }
  }

  /** A list of empty strings filters to nothing. */
  lemma {:induction false} DeleteEmptyAllEmpty(s: seq<string>)
    requires forall i :: 0 <= i < |s| ==> s[i] == ""
    ensures DeleteEmptySlices(s) == []
  {
    if |s| > 0 {
      DeleteEmptyAllEmpty(s[1..]);
    }
  }
}
