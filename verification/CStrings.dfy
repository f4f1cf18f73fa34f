// NUL-terminated strings in buffers: kstrcmp, kstrncpy, kmemcpy.
module CStrings {

  type Text = s: string | '\0' !in s

  // The text before the first NUL, or the whole buffer when there is none.
  function CStr(s: string): (t: Text)
    ensures |t| <= |s| && t == s[..|t|]
    ensures |t| < |s| ==> s[|t|] == '\0'
    ensures '\0' in s ==> |t| < |s|
  {
    if s == [] || s[0] == '\0' then [] else [s[0]] + CStr(s[1..])
  }

  lemma {:induction false} CStrAt(s: string, i: nat)
    requires i < |s| && '\0' !in s[..i]
    ensures if s[i] == '\0' then |CStr(s)| == i else |CStr(s)| > i
  {
    if i == 0 {
    } else {
      assert s[0] == s[..i][0];
      assert forall c :: c in s[1..][..i - 1] ==> c in s[..i];
      CStrAt(s[1..], i - 1);
    }
  }

  lemma CStrTerminated(t: Text, rest: string)
    ensures CStr(t + "\0" + rest) == t
  {
    var s := t + "\0" + rest;
    assert s[..|t|] == t;
    CStrAt(s, |t|);
  }

  // First difference of two NUL-terminated buffers; equal texts compare as 0.
  method KStrCmp(a: string, b: string) returns (r: int)
    requires '\0' in a && '\0' in b
    ensures r == 0 <==> CStr(a) == CStr(b)
    ensures exists i :: 0 <= i < |a| && i < |b| && a[..i] == b[..i] && r == a[i] as int - b[i] as int
  {
    var i := 0;
    while a[i] != '\0' && a[i] == b[i]
      invariant 0 <= i < |a| && i < |b|
      invariant a[..i] == b[..i] && '\0' !in a[..i]
      decreases |a| - i
    {
      assert a[..i + 1] == a[..i] + [a[i]] && b[..i + 1] == b[..i] + [b[i]];
      Further(a, i + 1);
      Further(b, i + 1);
      i := i + 1;
    }
    r := a[i] as int - b[i] as int;
    CStrAt(a, i);
    CStrAt(b, i);
    assert i < |CStr(a)| && i < |CStr(b)| ==> CStr(a)[i] == a[i] && CStr(b)[i] == b[i];
    assert |CStr(a)| == i == |CStr(b)| ==> CStr(a) == a[..i] && CStr(b) == b[..i];
  }

  // A NUL not among the first i characters comes later.
  lemma Further(s: string, i: nat)
    requires '\0' in s && i <= |s| && '\0' !in s[..i]
    ensures i < |s|
  {
    assert s[..|s|] == s;
  }

  function Min(a: nat, b: nat): nat { if a < b then a else b }

  function Fill(n: nat): (s: string)
    ensures |s| == n && forall i :: 0 <= i < n ==> s[i] == '\0'
  {
    seq(n, i => '\0')
  }

  // At most n characters of src, padded with NULs up to n; the buffer beyond n is untouched.
  method KStrNCpy(d: array<char>, src: Text, n: nat)
    requires n <= d.Length
    modifies d
    ensures var k := Min(|src|, n); d[..n] == src[..k] + Fill(n - k)
    ensures d[n..] == old(d[n..])
  {
    var i := 0;
    while i < n && i < |src|
      invariant 0 <= i <= n && i <= |src|
      invariant forall j :: 0 <= j < i ==> d[j] == src[j]
      invariant forall j :: i <= j < d.Length ==> d[j] == old(d[j])
    {
      d[i] := src[i];
      i := i + 1;
    }
    var k := i;
    while i < n
      invariant k <= i <= n
      invariant forall j :: 0 <= j < k ==> d[j] == src[j]
      invariant forall j :: k <= j < i ==> d[j] == '\0'
      invariant forall j :: i <= j < d.Length ==> d[j] == old(d[j])
    {
      d[i] := '\0';
      i := i + 1;
    }
  }
}
