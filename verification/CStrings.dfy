/** NUL-terminated strings inside character arrays, and the user library's operations on them. */
module CStrings {

  /** Some NUL stands at or after position `at`. */
  ghost predicate Terminated(s: string, at: nat) {
    exists k :: at <= k < |s| && s[k] == '\0'
  }

  /** `z` is where the string that starts at `at` ends. */
  predicate EndsAt(s: string, at: nat, z: nat) {
    at <= z < |s| && s[z] == '\0' && forall k :: at <= k < z ==> s[k] != '\0'
  }

  /** Everything in front of the first NUL, if there is one. */
  function UpToNul(s: string): (r: string)
    ensures |r| <= |s| && r == s[..|r|] && '\0' !in r && (|r| < |s| ==> s[|r|] == '\0')
  {
    if s == [] || s[0] == '\0' then [] else [s[0]] + UpToNul(s[1..])
  }

  /** The string that starts at `at`, without its NUL. */
  function CString(s: string, at: nat): (r: string)
    requires Terminated(s, at)
    ensures EndsAt(s, at, at + |r|) && r == s[at..at + |r|]
  {
    CStringTerminated(s, at);
    UpToNul(s[at..])
  }

  lemma {:induction false} UpToNulStops(s: string, k: nat)
    requires k < |s| && s[k] == '\0'
    ensures |UpToNul(s)| <= k
  {
    if k != 0 && s[0] != '\0' {
      UpToNulStops(s[1..], k - 1);
    }
  }

  lemma CStringTerminated(s: string, at: nat)
    requires Terminated(s, at)
    ensures at <= |s| && EndsAt(s, at, at + |UpToNul(s[at..])|)
    ensures UpToNul(s[at..]) == s[at..at + |UpToNul(s[at..])|]
  {
    var r := UpToNul(s[at..]);
    var k :| at <= k < |s| && s[k] == '\0';
    UpToNulStops(s[at..], k - at);
    forall i | at <= i < at + |r| ensures s[i] != '\0' {
      assert r[i - at] == s[i] && r[i - at] in r;
    }
  }

  lemma CStringEnd(s: string, at: nat, z: nat)
    requires EndsAt(s, at, z)
    ensures Terminated(s, at) && CString(s, at) == s[at..z]
  {
  }

  /** The first `n` characters, or all of them. */
  function Take(s: string, n: nat): string {
    if n < |s| then s[..n] else s
  }

  method Strlen(s: array<char>, at: nat) returns (len: nat)
    requires Terminated(s[..], at)
    ensures len == |CString(s[..], at)|
  {
    ghost var z := at + |CString(s[..], at)|;
    len := 0;
    while s[at + len] != '\0'
      invariant at + len <= z
      decreases z - at - len
    {
      len := len + 1;
    }
  }

  /** Copies the string that ends at `z`, its NUL included, down over itself or over what stands in
      front of it. */
  method Strcpy(a: array<char>, dst: nat, src: nat, ghost z: nat)
    requires dst <= src && EndsAt(a[..], src, z)
    modifies a
    ensures a[dst..dst + (z - src) + 1] == old(a[src..z + 1])
    ensures forall k :: 0 <= k < a.Length && !(dst <= k <= dst + (z - src)) ==> a[k] == old(a[k])
  {
    ghost var was := a[..];
    var i := 0;
    while true
      invariant src + i <= z
      invariant forall k :: 0 <= k < a.Length && !(dst <= k < dst + i) ==> a[k] == was[k]
      invariant a[dst..dst + i] == was[src..src + i]
      decreases z - src - i
    {
      assert a[src + i] == was[src + i];
      a[dst + i] := a[src + i];
      assert a[dst..dst + i + 1] == was[src..src + i + 1];
      if a[dst + i] == '\0' {
        break;
      }
      i := i + 1;
    }
  }

  /** The first `n` characters, filled up with NULs. */
  function Padded(s: string, n: nat): (r: string)
    ensures |r| == n && forall i :: 0 <= i < n ==> r[i] == if i < |s| then s[i] else '\0'
  {
    seq(n, i requires 0 <= i < n => if i < |s| then s[i] else '\0')
  }

  method Strncpy(dest: array<char>, src: array<char>, n: nat, ghost z: nat)
    requires dest != src && n <= dest.Length && EndsAt(src[..], 0, z)
    modifies dest
    ensures dest[..n] == Padded(src[..z], n) && dest[n..] == old(dest[n..])
  {
    var i := 0;
    while src[i] != '\0' && i < n
      invariant 0 <= i <= n && i <= z
      invariant forall k :: 0 <= k < dest.Length ==> dest[k] == if k < i then src[k] else old(dest[k])
      decreases z - i
    {
      dest[i] := src[i];
      i := i + 1;
    }
    while i < n
      invariant 0 <= i <= n
      invariant forall k :: 0 <= k < dest.Length ==> dest[k] == if k < i then Padded(src[..z], n)[k] else old(dest[k])
    {
      dest[i] := '\0';
      i := i + 1;
    }
  }

  /** Zero exactly when the strings agree on their first `n` characters. */
  method Strncmp(a: array<char>, i: nat, b: array<char>, j: nat, n: nat, ghost za: nat, ghost zb: nat) returns (r: int)
    requires EndsAt(a[..], i, za) && EndsAt(b[..], j, zb)
    ensures r == 0 <==> Take(a[i..za], n) == Take(b[j..zb], n)
  {
    ghost var x, y := a[i..za], b[j..zb];
    if n == 0 {
      return 0;
    }
    hide Take;
    var k, left := 0, n;
    while a[i + k] == b[j + k]
      invariant k + left == n && 0 < left
      invariant k <= |x| && k <= |y|
      invariant forall m :: 0 <= m < k ==> x[m] == y[m]
      decreases left
    {
      left := left - 1;
      if a[i + k] == '\0' || left == 0 {
        AgreeUpTo(x, y, k, n);
        return 0;
      }
      k := k + 1;
    }
    DifferAt(x, y, k, n);
    r := a[i + k] as int - b[j + k] as int;
  }

  lemma AgreeUpTo(x: string, y: string, k: nat, n: nat)
    requires k < n && k <= |x| && k <= |y|
    requires forall m :: 0 <= m < k ==> x[m] == y[m]
    requires |x| == |y| == k || (n == k + 1 && k < |x| && k < |y| && x[k] == y[k])
    ensures Take(x, n) == Take(y, n)
  {
  }

  lemma DifferAt(x: string, y: string, k: nat, n: nat)
    requires k < n && k <= |x| && k <= |y|
    requires if k < |x| && k < |y| then x[k] != y[k] else |x| != |y|
    ensures Take(x, n) != Take(y, n)
  {
    if k < |x| && k < |y| {
      assert Take(x, n)[k] != Take(y, n)[k];
    } else {
      assert |Take(x, n)| == k || |Take(y, n)| == k;
    }
  }
}
