/**
 * The explicit free list as values. The list is circular and doubly linked
 * through the first two payload words of each free block: word `x + 1`
 * holds the `next` block and word `x + 2` the `previous` one. `F` is the
 * list as met walking `next` links from the head, so `F[0]` is the head and
 * `F[|F| - 1]` the tail (the head's `previous`).
 */
module FreeList {
  import opened Layout
  import opened Arena

  /** Position of `x` in `s`. */
  function IndexOf(s: seq<int>, x: int): (i: int)
    requires x in s
    ensures 0 <= i < |s| && s[i] == x
    ensures forall j :: 0 <= j < i ==> s[j] != x
  {
    if s[0] == x then 0 else 1 + IndexOf(s[1..], x)
  }

  /** `s` with its first `x` taken out. */
  function Without(s: seq<int>, x: int): (r: seq<int>)
    requires x in s
    ensures |r| == |s| - 1
  {
    if s[0] == x then s[1..] else [s[0]] + Without(s[1..], x)
  }

  /** `Without` cuts out exactly the entry at the first index of `x`. */
  lemma {:induction false} WithoutSplit(s: seq<int>, x: int)
    requires x in s
    ensures Without(s, x) == s[..IndexOf(s, x)] + s[IndexOf(s, x) + 1..]
  {
    if s[0] != x {
      var t := s[1..];
      WithoutSplit(t, x);
      var k := IndexOf(t, x);
      assert IndexOf(s, x) == k + 1;
      calc {
        Without(s, x);
        [s[0]] + Without(t, x);
        [s[0]] + (t[..k] + t[k + 1..]);
        { assert [s[0]] + t[..k] == s[..k + 1]; assert t[k + 1..] == s[k + 2..]; }
        s[..k + 1] + s[k + 2..];
      }
    }
  }

  /** Two block starts at least a minimum block (four words) apart. */
  ghost predicate Apart(a: int, b: int)
  {
    a + 4 <= b || b + 4 <= a
  }

  /**
   * Distinct entries whose link words cannot overlap. The quantifier only
   * fires on an explicit `Apart` term, so a proof asks for the pairs it needs.
   */
  ghost predicate Spaced(F: seq<int>)
  {
    forall i, j {:trigger Apart(F[i], F[j])} :: 0 <= i < |F| && 0 <= j < |F| && i != j ==> Apart(F[i], F[j])
  }

  /**
   * `F` is the circular doubly linked list stored in `mem` with head `head`:
   * NULL heads the empty list, each entry's `next` word holds its successor
   * and each entry's `previous` word its predecessor, the tail's `next`
   * being the head and the head's `previous` the tail.
   */
  ghost predicate ListWF(mem: seq<int>, F: seq<int>, head: int)
  {
    && (F == [] ==> head == NULL)
    && (F != [] ==> head == F[0])
    && (forall i :: 0 <= i < |F| ==> 0 <= F[i] && F[i] + 2 < |mem|)
    && Spaced(F)
    && Chained(mem, F)
    && (F != [] ==> mem[F[|F| - 1] + 1] == F[0] && mem[F[0] + 2] == F[|F| - 1])
  }

  /** The `i`-th entry's `next` word holds entry `i + 1`, whose `previous` word holds entry `i`. */
  ghost predicate LinkedAt(mem: seq<int>, F: seq<int>, i: int)
  {
    && 0 <= i && i + 1 < |F|
    && 0 <= F[i] + 1 < |mem| && 0 <= F[i + 1] + 2 < |mem|
    && mem[F[i] + 1] == F[i + 1] && mem[F[i + 1] + 2] == F[i]
  }

  /**
   * Consecutive entries are linked both ways. As with `Spaced`, the
   * quantifier only fires on an explicit `LinkedAt` term.
   */
  ghost predicate Chained(mem: seq<int>, F: seq<int>)
  {
    forall i {:trigger LinkedAt(mem, F, i)} :: 0 <= i < |F| - 1 ==> LinkedAt(mem, F, i)
  }

  /** An empty arena holds no list entry. */
  lemma NoEntries(mem: seq<int>, F: seq<int>, head: int)
    requires ListWF(mem, F, head) && |mem| == 0
    ensures F == [] && head == NULL
  {
  }

  /** The words that hold the links of the entries of `F`. */
  ghost function Links(F: seq<int>): set<int>
  {
    (set x | x in F :: x + 1) + (set x | x in F :: x + 2)
  }

  /** `mem'` differs from `mem` at most in link words of `F`. */
  ghost predicate SameOffLinks(mem: seq<int>, mem': seq<int>, F: seq<int>)
  {
    && |mem'| == |mem|
    && forall k :: 0 <= k < |mem| && k !in Links(F) ==> mem'[k] == mem[k]
  }

  /**
   * The words `free_list_add` writes: an empty list becomes `p` linked to
   * itself; otherwise `p` is linked between the tail and the old head and
   * becomes the new head.
   */
  function AddLinks(mem: seq<int>, head: int, p: int): (r: seq<int>)
    requires 0 <= p && p + 2 < |mem|
    requires head != NULL ==> 0 <= head && head + 2 < |mem| && 0 <= mem[head + 2] && mem[head + 2] + 2 < |mem|
    ensures |r| == |mem|
  {
    if head == NULL then mem[p + 1 := p][p + 2 := p]
    else
      var last := mem[head + 2];
      mem[p + 1 := head][p + 2 := last][last + 1 := p][head + 2 := p]
  }

  /** The words `free_list_remove` writes: a sole entry changes nothing, else its neighbours are linked. */
  function RemoveLinks(mem: seq<int>, p: int): (r: seq<int>)
    requires 0 <= p && p + 2 < |mem|
    requires mem[p + 1] != p ==>
      0 <= mem[p + 1] && mem[p + 1] + 2 < |mem| && 0 <= mem[p + 2] && mem[p + 2] + 2 < |mem|
    ensures |r| == |mem|
  {
    var next, previous := mem[p + 1], mem[p + 2];
    if next == p then mem else mem[previous + 1 := next][next + 2 := previous]
  }

  /** The head `free_list_remove` leaves: NULL for a sole entry, the successor for the head, else unchanged. */
  function RemoveHead(mem: seq<int>, head: int, p: int): int
    requires 0 <= p && p + 2 < |mem|
  {
    if mem[p + 1] == p then NULL else if head == p then mem[p + 1] else head
  }

  lemma SpacedDistinct(F: seq<int>, i: int, j: int)
    requires Spaced(F) && 0 <= i < |F| && 0 <= j < |F|
    ensures F[i] == F[j] ==> i == j
  {
    if i != j { assert Apart(F[i], F[j]); }
  }

  /** `p` is apart from every entry of `F`. */
  ghost predicate ApartAll(F: seq<int>, p: int)
  {
    forall x :: x in F ==> Apart(p, x)
  }

  /** Adding `p` in front of a list it is apart from. */
  lemma SpacedCons(F: seq<int>, p: int)
    requires Spaced(F) && ApartAll(F, p)
    ensures Spaced([p] + F)
  {
    var G := [p] + F;
    forall i, j | 0 <= i < |G| && 0 <= j < |G| && i != j
      ensures Apart(G[i], G[j])
    {
      if i == 0 {
        assert G[j] == F[j - 1] && F[j - 1] in F;
      } else if j == 0 {
        assert G[i] == F[i - 1] && F[i - 1] in F;
      } else {
        assert G[i] == F[i - 1] && G[j] == F[j - 1];
        assert Apart(F[i - 1], F[j - 1]);
      }
    }
  }

  /** Taking an entry out keeps the rest apart, and removes that entry only. */
  lemma SpacedWithout(F: seq<int>, p: int)
    requires Spaced(F) && p in F
    ensures Spaced(Without(F, p))
    ensures forall y :: y in Without(F, p) <==> y in F && y != p
  {
    WithoutApart(F, p);
    WithoutMembers(F, p);
  }

  lemma WithoutApart(F: seq<int>, p: int)
    requires Spaced(F) && p in F
    ensures Spaced(Without(F, p))
  {
    var k := IndexOf(F, p);
    var G := Without(F, p);
    WithoutIndex(F, p);
    forall i, j | 0 <= i < |G| && 0 <= j < |G| && i != j
      ensures Apart(G[i], G[j])
    {
      var fi := if i < k then i else i + 1;
      var fj := if j < k then j else j + 1;
      assert G[i] == F[fi] && G[j] == F[fj];
      assert Apart(F[fi], F[fj]);
    }
  }

  lemma WithoutMembers(F: seq<int>, p: int)
    requires Spaced(F) && p in F
    ensures forall y :: y in Without(F, p) <==> y in F && y != p
  {
    var k := IndexOf(F, p);
    var G := Without(F, p);
    WithoutIndex(F, p);
    forall y
      ensures y in G <==> y in F && y != p
    {
      if y in G {
        var i :| 0 <= i < |G| && G[i] == y;
        var fi := if i < k then i else i + 1;
        assert F[fi] == y;
        SpacedDistinct(F, fi, k);
      }
      if y in F && y != p {
        var i :| 0 <= i < |F| && F[i] == y;
        if i < k { assert G[i] == y; } else { assert i != k && G[i - 1] == y; }
      }
    }
  }

  /**
   * `free_list_add` on a well-formed list and a block apart from every entry
   * yields the list with that block in front, as new head, writing only link
   * words of the new list.
   */
  lemma AddLinksWF(mem: seq<int>, F: seq<int>, head: int, p: int)
    requires ListWF(mem, F, head) && 0 <= p && p + 2 < |mem|
    requires ApartAll(F, p)
    ensures head != NULL ==> 0 <= head && head + 2 < |mem| && 0 <= mem[head + 2] && mem[head + 2] + 2 < |mem|
    ensures ListWF(AddLinks(mem, head, p), [p] + F, p)
    ensures SameOffLinks(mem, AddLinks(mem, head, p), [p] + F)
  {
    var G := [p] + F;
    SpacedCons(F, p);
    if F != [] {
      assert mem[F[0] + 2] == F[|F| - 1];
    }
    if F == [] {
      assert G == [p];
    } else {
      AddLinksChain(mem, F, p, AddLinks(mem, head, p));
    }
    AddLinksOff(mem, F, head, p);
  }

  lemma AddLinksOff(mem: seq<int>, F: seq<int>, head: int, p: int)
    requires 0 <= p && p + 2 < |mem|
    requires F == [] ==> head == NULL
    requires head != NULL ==> 0 <= head && head + 2 < |mem| && 0 <= mem[head + 2] && mem[head + 2] + 2 < |mem|
    requires F != [] ==> head == F[0] && mem[head + 2] == F[|F| - 1]
    ensures SameOffLinks(mem, AddLinks(mem, head, p), [p] + F)
  {
    var G := [p] + F;
    InLinks(G, p);
    if F != [] {
      InLinks(G, head);
      InLinks(G, mem[head + 2]);
    }
    FourWrites(mem, AddLinks(mem, head, p), Links(G), p, head, mem[head + 2]);
  }

  /** The words `AddLinks` writes are the only ones it changes. */
  lemma FourWrites(mem: seq<int>, m: seq<int>, L: set<int>, p: int, head: int, last: int)
    requires 0 <= p && p + 2 < |mem| && p + 1 in L && p + 2 in L
    requires head != NULL ==> 0 <= head && head + 2 < |mem| && 0 <= last && last + 2 < |mem|
    requires head != NULL ==> head + 2 in L && last + 1 in L
    requires head == NULL ==> m == mem[p + 1 := p][p + 2 := p]
    requires head != NULL ==> m == mem[p + 1 := head][p + 2 := last][last + 1 := p][head + 2 := p]
    ensures |m| == |mem| && forall k :: 0 <= k < |mem| && k !in L ==> m[k] == mem[k]
  {
  }

  lemma AddLinksChain(mem: seq<int>, F: seq<int>, p: int, m: seq<int>)
    requires |F| >= 1 && ListWF(mem, F, F[0]) && 0 <= p && p + 2 < |mem|
    requires ApartAll(F, p)
    requires m == mem[p + 1 := F[0]][p + 2 := F[|F| - 1]][F[|F| - 1] + 1 := p][F[0] + 2 := p]
    ensures Chained(m, [p] + F)
    ensures m[F[|F| - 1] + 1] == p && m[p + 2] == F[|F| - 1]
  {
    var G := [p] + F;
    var last := F[|F| - 1];
    forall i | 0 <= i < |G| - 1
      ensures LinkedAt(m, G, i)
    {
      if i == 0 {
        assert G[i + 1] == F[0] && F[0] in F && last in F;
        SpacedSlots(F, 0, |F| - 1);
      } else {
        assert G[i] == F[i - 1] && G[i + 1] == F[i];
        assert LinkedAt(mem, F, i - 1);
        assert F[i - 1] in F && F[i] in F;
        SpacedSlots(F, i - 1, |F| - 1);
        SpacedSlots(F, i - 1, 0);
        SpacedSlots(F, i, |F| - 1);
        SpacedSlots(F, i, 0);
      }
    }
    assert F[0] in F && last in F;
    SpacedSlots(F, 0, |F| - 1);
  }

  /** Index facts about `Without`: the entries before the gap keep their index, the later move down by one. */
  lemma WithoutIndex(F: seq<int>, p: int)
    requires p in F
    ensures var k := IndexOf(F, p);
      forall i {:trigger Without(F, p)[i]} :: 0 <= i < |F| - 1 ==> Without(F, p)[i] == (if i < k then F[i] else F[i + 1])
  {
    WithoutSplit(F, p);
  }

  /**
   * `free_list_remove` of an entry of a well-formed list yields the list
   * without it: a sole entry leaves the empty list, a head entry passes
   * the head to its successor, and only link words of the old list change.
   */
  lemma RemoveLinksWF(mem: seq<int>, F: seq<int>, head: int, p: int)
    requires ListWF(mem, F, head) && p in F
    ensures 0 <= p && p + 2 < |mem|
    ensures 0 <= mem[p + 1] && mem[p + 1] + 2 < |mem| && 0 <= mem[p + 2] && mem[p + 2] + 2 < |mem|
    ensures mem[p + 1] in F && mem[p + 2] in F
    ensures ListWF(RemoveLinks(mem, p), Without(F, p), RemoveHead(mem, head, p))
    ensures SameOffLinks(mem, RemoveLinks(mem, p), F)
  {
    RemoveNeighbours(mem, F, head, IndexOf(F, p));
    RemoveLinksList(mem, F, head, p);
    RemoveLinksOff(mem, F, p);
  }

  lemma RemoveLinksList(mem: seq<int>, F: seq<int>, head: int, p: int)
    requires ListWF(mem, F, head) && p in F
    requires 0 <= p && p + 2 < |mem|
    requires 0 <= mem[p + 1] && mem[p + 1] + 2 < |mem| && 0 <= mem[p + 2] && mem[p + 2] + 2 < |mem|
    ensures ListWF(RemoveLinks(mem, p), Without(F, p), RemoveHead(mem, head, p))
  {
    var k := IndexOf(F, p);
    RemoveNeighbours(mem, F, head, k);
    SpacedWithout(F, p);
    WithoutIndex(F, p);
    var G := Without(F, p);
    if |F| == 1 {
      assert G == [];
    } else {
      RemoveLinksMany(mem, F, head, k, G);
    }
  }

  lemma RemoveLinksOff(mem: seq<int>, F: seq<int>, p: int)
    requires 0 <= p && p + 2 < |mem| && mem[p + 1] in F && mem[p + 2] in F
    requires 0 <= mem[p + 1] && mem[p + 1] + 2 < |mem| && 0 <= mem[p + 2] && mem[p + 2] + 2 < |mem|
    ensures SameOffLinks(mem, RemoveLinks(mem, p), F)
  {
    InLinks(F, mem[p + 1]);
    InLinks(F, mem[p + 2]);
  }

  /** The links of the `k`-th entry: its `next` and `previous` in the circular order. */
  lemma RemoveNeighbours(mem: seq<int>, F: seq<int>, head: int, k: int)
    requires ListWF(mem, F, head) && 0 <= k < |F|
    ensures mem[F[k] + 1] == F[if k + 1 == |F| then 0 else k + 1]
    ensures mem[F[k] + 2] == F[if k == 0 then |F| - 1 else k - 1]
    ensures mem[F[k] + 1] in F && mem[F[k] + 2] in F
    ensures 0 <= mem[F[k] + 1] && mem[F[k] + 1] + 2 < |mem| && 0 <= mem[F[k] + 2] && mem[F[k] + 2] + 2 < |mem|
  {
    if k + 1 < |F| { assert LinkedAt(mem, F, k); }
    if k > 0 { assert LinkedAt(mem, F, k - 1); }
  }

  /** An entry's link words hold entries, so both lie in the arena. */
  lemma EntryBounds(mem: seq<int>, F: seq<int>, head: int, p: int)
    requires ListWF(mem, F, head) && p in F
    ensures 0 <= p && p + 2 < |mem|
    ensures 0 <= mem[p + 1] && mem[p + 1] + 2 < |mem| && 0 <= mem[p + 2] && mem[p + 2] + 2 < |mem|
  {
    RemoveNeighbours(mem, F, head, IndexOf(F, p));
  }

  lemma RemoveLinksMany(mem: seq<int>, F: seq<int>, head: int, k: int, G: seq<int>)
    requires ListWF(mem, F, head) && |F| >= 2 && 0 <= k < |F|
    requires mem[F[k] + 1] == F[if k + 1 == |F| then 0 else k + 1]
    requires mem[F[k] + 2] == F[if k == 0 then |F| - 1 else k - 1]
    requires Spaced(G) && |G| == |F| - 1
    requires forall i {:trigger G[i]} :: 0 <= i < |G| ==> G[i] == (if i < k then F[i] else F[i + 1])
    ensures ListWF(RemoveLinks(mem, F[k]), G, RemoveHead(mem, head, F[k]))
  {
    var p := F[k];
    var n := |F|;
    var kn := if k + 1 == n then 0 else k + 1;
    var kp := if k == 0 then n - 1 else k - 1;
    var nx, pv := F[kn], F[kp];
    assert nx != p by {
      SpacedDistinct(F, kn, k);
    }
    var m := RemoveLinks(mem, p);
    assert m == mem[pv + 1 := nx][nx + 2 := pv];
    SpacedSlots(F, kp, kn);
    assert forall i :: 0 <= i < |G| ==> 0 <= G[i] && G[i] + 2 < |mem|;
    RemoveLinksChain(mem, F, p, k, G, m);
    RemoveLinksWrap(mem, F, p, k, G, m);
    assert RemoveHead(mem, head, p) == G[0] by {
      if k == 0 { assert G[0] == F[1]; } else { assert G[0] == F[0]; }
    }
  }

  lemma InLinks(F: seq<int>, x: int)
    requires x in F
    ensures x + 1 in Links(F) && x + 2 in Links(F)
  {
  }

  lemma RemoveLinksChain(mem: seq<int>, F: seq<int>, p: int, k: int, G: seq<int>, m: seq<int>)
    requires |F| >= 2 && ListWF(mem, F, F[0]) && 0 <= k < |F| && F[k] == p && |m| == |mem|
    requires |G| == |F| - 1 && forall i {:trigger G[i]} :: 0 <= i < |G| ==> G[i] == (if i < k then F[i] else F[i + 1])
    requires forall i :: 0 <= i < |G| ==> 0 <= G[i] && G[i] + 2 < |mem|
    requires var nx := F[if k + 1 == |F| then 0 else k + 1];
      var pv := F[if k == 0 then |F| - 1 else k - 1];
      m == mem[pv + 1 := nx][nx + 2 := pv] && pv + 1 != nx + 2
    ensures Chained(m, G)
  {
    var n := |F|;
    var nx := F[if k + 1 == n then 0 else k + 1];
    var pv := F[if k == 0 then n - 1 else k - 1];
    forall i | 0 <= i < |G| - 1
      ensures LinkedAt(m, G, i)
    {
      var j := i + 1;
      var kn := if k + 1 == n then 0 else k + 1;
      var kp := if k == 0 then n - 1 else k - 1;
      if j < k {
        assert G[i] == F[i] && G[j] == F[j];
        assert LinkedAt(mem, F, i);
        SpacedSlots(F, i, kp);
        SpacedSlots(F, i, kn);
        SpacedSlots(F, j, kp);
        SpacedSlots(F, j, kn);
      } else if j == k {
        assert G[i] == F[k - 1] == pv && G[j] == F[k + 1] == nx;
      } else {
        assert G[i] == F[i + 1] && G[j] == F[j + 1];
        assert LinkedAt(mem, F, i + 1);
        SpacedSlots(F, i + 1, kp);
        SpacedSlots(F, i + 1, kn);
        SpacedSlots(F, j + 1, kp);
        SpacedSlots(F, j + 1, kn);
      }
    }
  }

  lemma RemoveLinksWrap(mem: seq<int>, F: seq<int>, p: int, k: int, G: seq<int>, m: seq<int>)
    requires |F| >= 2 && ListWF(mem, F, F[0]) && 0 <= k < |F| && F[k] == p && |m| == |mem|
    requires |G| == |F| - 1 && forall i {:trigger G[i]} :: 0 <= i < |G| ==> G[i] == (if i < k then F[i] else F[i + 1])
    requires forall i :: 0 <= i < |G| ==> 0 <= G[i] && G[i] + 2 < |mem|
    requires var nx := F[if k + 1 == |F| then 0 else k + 1];
      var pv := F[if k == 0 then |F| - 1 else k - 1];
      m == mem[pv + 1 := nx][nx + 2 := pv] && pv + 1 != nx + 2
    ensures m[G[|G| - 1] + 1] == G[0] && m[G[0] + 2] == G[|G| - 1]
  {
    var n := |F|;
    if k == 0 {
      assert G[0] == F[1] && G[|G| - 1] == F[n - 1];
    } else if k == n - 1 {
      assert G[0] == F[0] && G[|G| - 1] == F[n - 2];
    } else {
      assert G[0] == F[0] && G[|G| - 1] == F[n - 1];
      SpacedSlots(F, n - 1, k - 1);
      SpacedSlots(F, n - 1, k + 1);
      SpacedSlots(F, 0, k - 1);
      SpacedSlots(F, 0, k + 1);
    }
  }

  /** Link words of different entries are different words. */
  lemma SpacedSlots(F: seq<int>, a: int, b: int)
    requires Spaced(F) && 0 <= a < |F| && 0 <= b < |F|
    ensures a != b ==> F[a] + 1 != F[b] + 1 && F[a] + 2 != F[b] + 2
    ensures F[a] + 1 != F[b] + 2 && F[a] + 2 != F[b] + 1
  {
    if a != b { assert Apart(F[a], F[b]); }
  }

  /**
   * `p` has been taken out of the list and its own link words are stale:
   * either the list is empty and `p` still links to itself, or `p`'s
   * `next` and `previous` are entries that are already linked to each other.
   */
  ghost predicate StaleUnlinked(mem: seq<int>, F: seq<int>, p: int)
  {
    && 0 <= p && p + 2 < |mem|
    && p !in F
    && ((F == [] && mem[p + 1] == p)
        || (&& mem[p + 1] in F && mem[p + 2] in F
            && 0 <= mem[p + 1] && mem[p + 1] + 2 < |mem| && 0 <= mem[p + 2] && mem[p + 2] + 2 < |mem|
            && mem[mem[p + 2] + 1] == mem[p + 1] && mem[mem[p + 1] + 2] == mem[p + 2]))
  }

  /** Taking an entry out of the list leaves its link words stale. */
  lemma RemoveLeavesStale(mem: seq<int>, F: seq<int>, head: int, p: int)
    requires ListWF(mem, F, head) && p in F
    ensures 0 <= p && p + 2 < |mem|
    ensures mem[p + 1] != p ==>
      0 <= mem[p + 1] && mem[p + 1] + 2 < |mem| && 0 <= mem[p + 2] && mem[p + 2] + 2 < |mem|
    ensures StaleUnlinked(RemoveLinks(mem, p), Without(F, p), p)
  {
    var k := IndexOf(F, p);
    RemoveNeighbours(mem, F, head, k);
    var G := Without(F, p);
    if |F| == 1 {
      assert G == [];
      assert mem[p + 1] == p;
    } else {
      StaleLinks(mem, F, k);
      var nx, pv := mem[p + 1], mem[p + 2];
      assert p !in G && nx in G && pv in G by {
        SpacedWithout(F, p);
      }
    }
  }

  lemma StaleLinks(mem: seq<int>, F: seq<int>, k: int)
    requires |F| >= 2 && ListWF(mem, F, F[0]) && 0 <= k < |F|
    requires mem[F[k] + 1] == F[if k + 1 == |F| then 0 else k + 1]
    requires mem[F[k] + 2] == F[if k == 0 then |F| - 1 else k - 1]
    ensures var p, nx, pv := F[k], F[if k + 1 == |F| then 0 else k + 1], F[if k == 0 then |F| - 1 else k - 1];
      && nx != p && pv != p
      && var m := RemoveLinks(mem, p);
      m[p + 1] == nx && m[p + 2] == pv && m[pv + 1] == nx && m[nx + 2] == pv
  {
    var n := |F|;
    var kn := if k + 1 == n then 0 else k + 1;
    var kp := if k == 0 then n - 1 else k - 1;
    var p, nx, pv := F[k], F[kn], F[kp];
    assert nx != p by {
      SpacedDistinct(F, kn, k);
    }
    assert pv != p by {
      SpacedDistinct(F, kp, k);
    }
    SpacedSlots(F, kp, kn);
    SpacedSlots(F, k, kn);
    SpacedSlots(F, k, kp);
    var m := RemoveLinks(mem, p);
    assert m == mem[pv + 1 := nx][nx + 2 := pv];
  }

  /** Taking a stale entry out again writes nothing and keeps the head. */
  lemma RemoveStale(mem: seq<int>, F: seq<int>, head: int, p: int)
    requires ListWF(mem, F, head) && StaleUnlinked(mem, F, p)
    ensures RemoveLinks(mem, p) == mem && RemoveHead(mem, head, p) == head
  {
    if F != [] {
      var nx, pv := mem[p + 1], mem[p + 2];
      assert mem[pv + 1 := nx] == mem;
      assert mem[pv + 1 := nx][nx + 2 := pv] == mem;
    }
  }

  /** A list survives any change that keeps its link words (and the arena long enough to hold them). */
  lemma ListFrame(mem: seq<int>, mem': seq<int>, F: seq<int>, head: int)
    requires ListWF(mem, F, head)
    requires forall x :: x in F ==> x + 2 < |mem'| && mem'[x + 1] == mem[x + 1] && mem'[x + 2] == mem[x + 2]
    ensures ListWF(mem', F, head)
  {
    assert forall i :: 0 <= i < |F| ==> F[i] in F;
    forall i | 0 <= i < |F| - 1
      ensures LinkedAt(mem', F, i)
    {
      assert LinkedAt(mem, F, i);
    }
  }

  /** Word `k` is neither the header nor the footer of any block of `bs`. */
  ghost predicate NotTag(mem: seq<int>, bs: seq<int>, k: int)
  {
    forall i :: 0 <= i < |bs| && 0 <= bs[i] < |mem| ==> k != bs[i] && k != End(mem, bs[i]) - 1
  }

  /** No link word of an entry of `F` is a boundary tag. */
  ghost predicate LinksNotTags(mem: seq<int>, bs: seq<int>, F: seq<int>)
  {
    forall x :: x in F ==> NotTag(mem, bs, x + 1) && NotTag(mem, bs, x + 2)
  }

  /** The two words after `x` are not tags when `x` and the next three words lie in one block. */
  lemma InteriorNotTag(mem: seq<int>, bs: seq<int>, i: int, x: int)
    requires Tiled(mem, bs) && 0 <= i < |bs| && bs[i] <= x && x + 4 <= End(mem, bs[i])
    ensures NotTag(mem, bs, x + 1) && NotTag(mem, bs, x + 2)
  {
    LastBlock(mem, bs, i);
    UniqueOwner(mem, bs, i, x + 1);
    UniqueOwner(mem, bs, i, x + 2);
    forall j | 0 <= j < |bs| && 0 <= bs[j] < |mem|
      ensures x + 1 != bs[j] && x + 1 != End(mem, bs[j]) - 1
      ensures x + 2 != bs[j] && x + 2 != End(mem, bs[j]) - 1
    {
      assert BlockAt(mem, bs[j]);
      BlockFacts(mem, bs[j]);
    }
  }

  /** Entries that are block starts have their links inside their own blocks. */
  lemma BlockLinksNotTags(mem: seq<int>, bs: seq<int>, F: seq<int>)
    requires Tiled(mem, bs) && forall x :: x in F ==> x in bs
    ensures LinksNotTags(mem, bs, F)
  {
    forall x | x in F
      ensures NotTag(mem, bs, x + 1) && NotTag(mem, bs, x + 2)
    {
      var i := IndexIn(bs, x);
      assert BlockAt(mem, bs[i]);
      BlockFacts(mem, bs[i]);
      InteriorNotTag(mem, bs, i, x);
    }
  }

  /** `mem'` holds the same header and footer words as `mem` for every block of `bs`. */
  ghost predicate SameTags(mem: seq<int>, mem': seq<int>, bs: seq<int>)
  {
    && |mem'| == |mem|
    && forall j :: 0 <= j < |bs| && BlockAt(mem, bs[j]) ==>
         mem'[bs[j]] == mem[bs[j]] && mem'[End(mem, bs[j]) - 1] == mem[End(mem, bs[j]) - 1]
  }

  /** Rewriting link words that are not tags keeps every tag, hence the tiling. */
  lemma KeepTiled(mem: seq<int>, mem': seq<int>, bs: seq<int>, F: seq<int>)
    requires Tiled(mem, bs) && LinksNotTags(mem, bs, F) && SameOffLinks(mem, mem', F)
    ensures SameTags(mem, mem', bs) && Tiled(mem', bs)
  {
    forall j | 0 <= j < |bs|
      ensures mem'[bs[j]] == mem[bs[j]] && mem'[End(mem, bs[j]) - 1] == mem[End(mem, bs[j]) - 1]
    {
      assert BlockAt(mem, bs[j]);
      TagNotLink(mem, bs, F, j);
    }
    TiledFrame(mem, mem', bs);
  }

  lemma TagNotLink(mem: seq<int>, bs: seq<int>, F: seq<int>, j: int)
    requires Tiled(mem, bs) && LinksNotTags(mem, bs, F) && 0 <= j < |bs|
    ensures BlockAt(mem, bs[j])
    ensures bs[j] !in Links(F) && End(mem, bs[j]) - 1 !in Links(F)
  {
    assert BlockAt(mem, bs[j]);
    forall x | x in F
      ensures bs[j] != x + 1 && bs[j] != x + 2
      ensures End(mem, bs[j]) - 1 != x + 1 && End(mem, bs[j]) - 1 != x + 2
    {
      assert NotTag(mem, bs, x + 1) && NotTag(mem, bs, x + 2);
    }
  }

  /** Every entry of the list is a free block of the tiling. */
  ghost predicate ListedFree(mem: seq<int>, F: seq<int>, bs: seq<int>)
  {
    forall x :: x in F ==> x in bs && 0 <= x < |mem| && !IsAllocated(mem[x])
  }

  /** Every free block of the tiling is on the list. */
  ghost predicate AllFreeListed(mem: seq<int>, bs: seq<int>, F: seq<int>)
  {
    forall i :: 0 <= i < |bs| && 0 <= bs[i] < |mem| && !IsAllocated(mem[bs[i]]) ==> bs[i] in F
  }

  /**
   * The position `find_free_block` settles on after visiting the first `k`
   * entries of the list: -1 while no entry's size reaches `size`, otherwise
   * the entry it last switched to (BestFitSpec says which one that is).
   */
  function BestFit(mem: seq<int>, F: seq<int>, size: int, k: nat): (r: int)
    requires k <= |F| && forall i :: 0 <= i < |F| ==> 0 <= F[i] < |mem|
    ensures -1 <= r < k
    ensures r >= 0 ==> mem[F[r]] >= size
  {
    if k == 0 then -1
    else
      var b := BestFit(mem, F, size, k - 1);
      if mem[F[k - 1]] >= size && (b == -1 || mem[F[k - 1]] < mem[F[b]]) then k - 1 else b
  }

  /**
   * The best fit over the first `k` entries: none when no entry reaches
   * `size`, otherwise one whose size reaches `size`, no larger than any
   * other entry that does, and strictly smaller than every earlier one that
   * does (ties go to the entry met first).
   */
  lemma {:induction false} BestFitSpec(mem: seq<int>, F: seq<int>, size: int, k: nat)
    requires k <= |F| && forall i :: 0 <= i < |F| ==> 0 <= F[i] < |mem|
    ensures var r := BestFit(mem, F, size, k);
      && (r == -1 <==> forall j :: 0 <= j < k ==> mem[F[j]] < size)
      && (r >= 0 ==> forall j :: 0 <= j < k && mem[F[j]] >= size ==> mem[F[r]] <= mem[F[j]])
      && (r >= 0 ==> forall j :: 0 <= j < r && mem[F[j]] >= size ==> mem[F[r]] < mem[F[j]])
  {
    if k > 0 {
      BestFitSpec(mem, F, size, k - 1);
    }
  }
}
