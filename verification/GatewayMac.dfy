/** The delimiter loop of parseGatewayMac in linkkit.c: ':' is removed in place. */
module GatewayMac {
  const NUL := '\0'

  /** Length of the text in a buffer. */
  function Len(s: seq<char>): (n: nat)
    ensures n <= |s|
    ensures n < |s| ==> s[n] == NUL
    ensures forall i :: 0 <= i < n ==> s[i] != NUL
  {
    if s == [] || s[0] == NUL then 0 else 1 + Len(s[1..])
  }

  function Filtered(s: seq<char>): (r: seq<char>)
    ensures |r| <= |s|
  {
    if s == [] then []
    else Filtered(s[..|s| - 1]) + (if s[|s| - 1] != ':' then [s[|s| - 1]] else [])
  }

  lemma {:induction false} FilteredSplit(a: seq<char>, b: seq<char>)
    ensures Filtered(a + b) == Filtered(a) + Filtered(b)
  {
    if b == [] {
      assert a + b == a;
    } else {
      assert (a + b)[..|a + b| - 1] == a + b[..|b| - 1];
      FilteredSplit(a, b[..|b| - 1]);
    }
  }

  lemma FilteredNext(s: seq<char>, n: nat)
    requires n < |s|
    ensures Filtered(s[..n + 1]) == if s[n] != ':' then Filtered(s[..n]) + [s[n]] else Filtered(s[..n])
  {
    assert s[..n + 1][..n] == s[..n];
  }

  /** The filter keeps every other character, in order, and nothing else. */
  lemma {:induction false} FilteredIsTheRest(s: seq<char>)
    ensures ':' !in Filtered(s)
    ensures multiset(Filtered(s)) == multiset(s)[':' := 0]
  {
    if s != [] {
      FilteredIsTheRest(s[..|s| - 1]);
      assert s == s[..|s| - 1] + [s[|s| - 1]];
    }
  }

  lemma FilteredNothing()
    ensures Filtered([]) == []
  {
  }

  lemma LenIs(s: seq<char>, n: nat)
    requires n < |s| && s[n] == NUL && forall i :: 0 <= i < n ==> s[i] != NUL
    ensures Len(s) == n
  {
  }

  /** Position n is the terminator. */
  ghost predicate EndsAt(gwMac: array<char>, n: nat)
    reads gwMac
  {
    n < gwMac.Length && gwMac[n] == NUL && forall k :: 0 <= k < n ==> gwMac[k] != NUL
  }

  /** The inner loop: everything from i + 1 up to and including the terminator moves down. */
  method ShiftLeft(gwMac: array<char>, i: nat, ghost n: nat)
    requires EndsAt(gwMac, n) && i < n
    modifies gwMac
    ensures EndsAt(gwMac, n - 1)
    ensures forall k :: 0 <= k < i || n <= k < gwMac.Length ==> gwMac[k] == old(gwMac[k])
    ensures forall k :: i <= k < n ==> gwMac[k] == old(gwMac[k + 1])
  {
    ghost var s := gwMac[..];
    var j := i;
    while gwMac[j] != NUL
      invariant i <= j <= n
      invariant forall k :: 0 <= k < i || j <= k < gwMac.Length ==> gwMac[k] == s[k]
      invariant forall k :: i <= k < j ==> gwMac[k] == s[k + 1]
      decreases n - j
    {
      gwMac[j] := gwMac[j + 1];
      j := j + 1;
    }
  }

  /** After i characters kept and gap removed, the rest of the text s is still to come. */
  ghost predicate Progress(gwMac: array<char>, s: seq<char>, i: nat, gap: nat, n: nat)
    reads gwMac
  {
    EndsAt(gwMac, n) && i <= n && n + gap == |s| &&
    gwMac[..i] == Filtered(s[..i + gap]) && forall k :: i <= k < n ==> gwMac[k] == s[k + gap]
  }

  lemma KeepOne(gwMac: array<char>, s: seq<char>, i: nat, gap: nat, n: nat)
    requires Progress(gwMac, s, i, gap, n) && i < n && gwMac[i] != ':'
    ensures Progress(gwMac, s, i + 1, gap, n)
  {
    hide Filtered;
    FilteredNext(s, i + gap);
    assert gwMac[..i + 1] == gwMac[..i] + [gwMac[i]];
  }

  method RemoveOne(gwMac: array<char>, i: nat, ghost s: seq<char>, ghost gap: nat, ghost n: nat)
    requires Progress(gwMac, s, i, gap, n) && i < n && gwMac[i] == ':'
    modifies gwMac
    ensures Progress(gwMac, s, i, gap + 1, n - 1)
  {
    hide Filtered;
    FilteredNext(s, i + gap);
    ShiftLeft(gwMac, i, n);
    assert gwMac[..i] == old(gwMac[..i]);
  }

  /** The whole loop. Its index steps back when a character is removed, yet what is
      left to look at shrinks every time. n0 and n are where the text ends before and after. */
  method StripColons(gwMac: array<char>, ghost n0: nat) returns (ghost n: nat)
    requires EndsAt(gwMac, n0)
    modifies gwMac
    ensures n <= n0 && EndsAt(gwMac, n) && gwMac[..n] == Filtered(old(gwMac[..n0]))
  {
    ghost var s := gwMac[..n0];
    ghost var gap: nat := 0;  // characters removed so far
    n := n0;
    assert gwMac[..0] == s[..0] == [];
    FilteredNothing();
    var i: int := 0;
    hide Filtered;
    while gwMac[i] != NUL
      invariant 0 <= i <= n < gwMac.Length && Progress(gwMac, s, i, gap, n)
      decreases n - i
    {
      if gwMac[i] != ':' {
        KeepOne(gwMac, s, i, gap, n);
        i := i + 1;
        continue;
      }
      RemoveOne(gwMac, i, s, gap, n);
      i := i - 1;
      i := i + 1;
      n, gap := n - 1, gap + 1;
    }
    assert s[..i + gap] == s;
  }

  /** parseGatewayMac after the address is read: the text for the caller's buffer. */
  method GatewayMacText(gwMac: array<char>) returns (mac: seq<char>)
    requires Len(gwMac[..]) < gwMac.Length
    modifies gwMac
    ensures mac == "0000" + old(Filtered(gwMac[..Len(gwMac[..])]))
  {
    ghost var n := StripColons(gwMac, Len(gwMac[..]));
    LenIs(gwMac[..], n);
    mac := "0000" + gwMac[..Len(gwMac[..])];
  }

  lemma FilteredOne(c: char)
    ensures Filtered([c]) == if c == ':' then [] else [c]
  {
    assert [c][..0] == [];
  }
}
