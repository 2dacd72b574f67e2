/**
 * The Redis sorted set the broker stores its history in, as far as the
 * broker uses it: ZADD without flags and ZRANGE ... BYSCORE ... LIMIT.
 *
 * A sorted set is represented the way Redis keeps it, as a sequence of
 * (member, score) entries in ascending (score, member) order with each
 * member at most once. Its content is the map from member to score that
 * `ToMap` reads off; the canonicity lemma shows the representation is
 * determined by that content.
 */
module SortedSet {
  import opened StringOrder

  datatype Entry = Entry(member: string, score: int)

  /** Redis order: ascending score, members of equal score in byte order. */
  predicate Precedes(a: Entry, b: Entry) {
    a.score < b.score || (a.score == b.score && LexLess(a.member, b.member))
  }

  /** Strictly ordered, and no member appears twice. */
  predicate Valid(z: seq<Entry>) {
    forall i, j :: 0 <= i < j < |z| ==> Precedes(z[i], z[j]) && z[i].member != z[j].member
  }

  type ZSet = z: seq<Entry> | Valid(z) witness []

  /** The content of a sorted set: each member with its score. */
  function ToMap(z: seq<Entry>): map<string, int> {
    if |z| == 0 then map[] else ToMap(z[1..])[z[0].member := z[0].score]
  }

  /** Every entry of a sorted set is in its content, with its score. */
  lemma {:induction false} ToMapAt(z: seq<Entry>, i: int)
    requires Valid(z) && 0 <= i < |z|
    ensures z[i].member in ToMap(z) && ToMap(z)[z[i].member] == z[i].score
    decreases i
  {
    if i > 0 {
      assert z[0].member != z[i].member;
      assert z[1..][i - 1] == z[i];
      ToMapAt(z[1..], i - 1);
    }
  }

  /** Every member of the content comes from some entry. */
  lemma {:induction false} MemberIndex(z: seq<Entry>, x: string) returns (i: nat)
    requires x in ToMap(z)
    ensures i < |z| && z[i].member == x
    decreases |z|
  {
    if z[0].member == x {
      i := 0;
    } else {
      var j := MemberIndex(z[1..], x);
      i := j + 1;
    }
  }

  /** A string no entry carries is not in the content. */
  lemma {:induction false} NotInContent(z: seq<Entry>, x: string)
    requires forall i :: 0 <= i < |z| ==> z[i].member != x
    ensures x !in ToMap(z)
    decreases |z|
  {
    if |z| > 0 {
      NotInContent(z[1..], x);
    }
  }

  /** Dropping the first entry of a sorted set removes exactly its member. */
  lemma ToMapTail(z: ZSet)
    requires |z| > 0
    ensures ToMap(z[1..]) == ToMap(z) - {z[0].member}
  {
    NotInContent(z[1..], z[0].member);
  }

  lemma PrecedesIrreflexive(a: Entry)
    ensures !Precedes(a, a)
  {
    LexIrreflexive(a.member);
  }

  lemma PrecedesAsymmetric(a: Entry, b: Entry)
    ensures Precedes(a, b) ==> !Precedes(b, a)
  {
    if Precedes(a, b) && a.score == b.score {
      LexAsymmetric(a.member, b.member);
    }
  }

  /** Entries with different members are always ordered one way or the other. */
  lemma PrecedesTotal(a: Entry, b: Entry)
    requires a.member != b.member
    ensures Precedes(a, b) || Precedes(b, a)
  {
    if a.score == b.score {
      LexTotal(a.member, b.member);
    }
  }

  lemma PrecedesTransitive(a: Entry, b: Entry, c: Entry)
    requires Precedes(a, b) && Precedes(b, c)
    ensures Precedes(a, c)
  {
    if a.score == b.score && b.score == c.score {
      LexTransitive(a.member, b.member, c.member);
    }
  }

  /** The Redis order is a strict total order on entries with distinct members. */
  lemma PrecedesStrictTotalOrder(a: Entry, b: Entry, c: Entry)
    ensures !Precedes(a, a)
    ensures Precedes(a, b) ==> !Precedes(b, a)
    ensures Precedes(a, b) && Precedes(b, c) ==> Precedes(a, c)
    ensures a.member != b.member ==> Precedes(a, b) || Precedes(b, a)
  {
    PrecedesIrreflexive(a);
    if Precedes(a, b) {
      PrecedesAsymmetric(a, b);
      if Precedes(b, c) {
        PrecedesTransitive(a, b, c);
      }
    }
    if a.member != b.member {
      PrecedesTotal(a, b);
    }
  }

  /** `e` sorts before every entry of `r` and shares no member with them. */
  ghost predicate Leads(e: Entry, r: seq<Entry>) {
    forall x :: x in r ==> Precedes(e, x) && e.member != x.member
  }

  lemma ConsValid(e: Entry, r: seq<Entry>)
    requires Valid(r) && Leads(e, r)
    ensures Valid([e] + r)
  {
    var z := [e] + r;
    forall i, j | 0 <= i < j < |z|
      ensures Precedes(z[i], z[j]) && z[i].member != z[j].member
    {
      assert z[j] == r[j - 1];
      if i > 0 {
        assert z[i] == r[i - 1];
      }
    }
  }

  lemma HeadLeads(z: seq<Entry>)
    requires Valid(z) && |z| > 0
    ensures Leads(z[0], z[1..])
  {
    forall x | x in z[1..]
      ensures Precedes(z[0], x) && z[0].member != x.member
    {
      var j :| 0 <= j < |z[1..]| && z[1..][j] == x;
      assert z[j + 1] == x;
    }
  }

  /** Takes `member` out of the set, whatever its score. */
  function Remove(z: seq<Entry>, member: string): (r: seq<Entry>)
    ensures forall e :: e in r <==> e in z && e.member != member
  {
    if |z| == 0 then []
    else if z[0].member == member then Remove(z[1..], member)
    else [z[0]] + Remove(z[1..], member)
  }

  lemma {:induction false} RemoveContent(z: seq<Entry>, member: string)
    ensures ToMap(Remove(z, member)) == ToMap(z) - {member}
    decreases |z|
  {
    if |z| > 0 {
      RemoveContent(z[1..], member);
      if z[0].member != member {
        var r := Remove(z, member);
        assert r[1..] == Remove(z[1..], member);
      }
    }
  }

  lemma {:induction false} RemoveValid(z: seq<Entry>, member: string)
    requires Valid(z)
    ensures Valid(Remove(z, member))
    decreases |z|
  {
    if |z| > 0 {
      RemoveValid(z[1..], member);
      if z[0].member != member {
        HeadLeads(z);
        ConsValid(z[0], Remove(z[1..], member));
      }
    }
  }

  /** Puts an entry whose member is absent in its place in the order. */
  function Insert(z: seq<Entry>, e: Entry): (r: seq<Entry>)
    ensures forall x :: x in r <==> x in z || x == e
  {
    if |z| == 0 || Precedes(e, z[0]) then [e] + z
    else [z[0]] + Insert(z[1..], e)
  }

  lemma {:induction false} InsertContent(z: seq<Entry>, e: Entry)
    requires e.member !in ToMap(z)
    ensures ToMap(Insert(z, e)) == ToMap(z)[e.member := e.score]
    decreases |z|
  {
    if |z| > 0 && !Precedes(e, z[0]) {
      InsertContent(z[1..], e);
      var r := Insert(z, e);
      assert r[1..] == Insert(z[1..], e);
    } else {
      assert ([e] + z)[1..] == z;
    }
  }

  lemma {:induction false} InsertValid(z: seq<Entry>, e: Entry)
    requires Valid(z) && e.member !in ToMap(z)
    ensures Valid(Insert(z, e))
    decreases |z|
  {
    if |z| == 0 {
    } else if Precedes(e, z[0]) {
      ToMapAt(z, 0);
      forall x | x in z
        ensures Precedes(e, x) && e.member != x.member
      {
        var j :| 0 <= j < |z| && z[j] == x;
        ToMapAt(z, j);
        if j > 0 {
          PrecedesTransitive(e, z[0], x);
        }
      }
      ConsValid(e, z);
    } else {
      ToMapAt(z, 0);
      PrecedesTotal(e, z[0]);
      ToMapTail(z);
      InsertValid(z[1..], e);
      HeadLeads(z);
      ConsValid(z[0], Insert(z[1..], e));
    }
  }

  /**
   * ZADD key score member with no NX/XX/GT/LT flag: adds the member, or
   * moves it to its new score when it is already present.
   */
  function ZAdd(z: ZSet, member: string, score: int): (r: ZSet)
    ensures ToMap(r) == ToMap(z)[member := score]
    ensures forall e :: e in r ==> e in z || e == Entry(member, score)
  {
    var rest := Remove(z, member);
    RemoveContent(z, member);
    RemoveValid(z, member);
    InsertContent(rest, Entry(member, score));
    InsertValid(rest, Entry(member, score));
    Insert(rest, Entry(member, score))
  }

  /**
   * Two sorted sets with the same content are the same sequence: a
   * sorted set is determined by its members and their scores.
   */
  lemma {:induction false} Canonical(z1: ZSet, z2: ZSet)
    requires ToMap(z1) == ToMap(z2)
    ensures z1 == z2
    decreases |z1|
  {
    if |z1| == 0 || |z2| == 0 {
      if |z1| > 0 {
        ToMapAt(z1, 0);
      }
      if |z2| > 0 {
        ToMapAt(z2, 0);
      }
    } else {
      var a, b := z1[0], z2[0];
      ToMapAt(z1, 0);
      ToMapAt(z2, 0);
      var j := MemberIndex(z2, a.member);
      var i := MemberIndex(z1, b.member);
      ToMapAt(z1, i);
      ToMapAt(z2, j);
      assert z2[j] == a && z1[i] == b;
      assert j > 0 ==> Precedes(b, a);
      assert i > 0 ==> Precedes(a, b);
      PrecedesAsymmetric(a, b);
      assert a == b;
      ToMapTail(z1);
      ToMapTail(z2);
      Canonical(z1[1..], z2[1..]);
      assert z1 == [a] + z1[1..];
      assert z2 == [b] + z2[1..];
    }
  }

  /** Skips the entries scored below `min`: Redis seeks the first entry with score >= min. */
  function SkipBelow(z: seq<Entry>, min: int): (r: seq<Entry>)
    ensures |r| <= |z| && r == z[|z| - |r|..]
    ensures forall i :: 0 <= i < |z| - |r| ==> z[i].score < min
    ensures |r| > 0 ==> r[0].score >= min
  {
    if |z| == 0 || z[0].score >= min then z else SkipBelow(z[1..], min)
  }

  function MembersOf(z: seq<Entry>): (r: seq<string>)
    ensures |r| == |z| && forall i :: 0 <= i < |z| ==> r[i] == z[i].member
  {
    seq(|z|, i requires 0 <= i < |z| => z[i].member)
  }

  /** `a` sorts strictly before `b` in the sorted set whose content is `m`. */
  ghost predicate Before(m: map<string, int>, a: string, b: string) {
    a in m && b in m && Precedes(Entry(a, m[a]), Entry(b, m[b]))
  }

  /**
   * `page` lists, in Redis order, the first `count` members of `m` whose
   * score is at least `min` (all of them when there are fewer).
   */
  ghost predicate IsPage(m: map<string, int>, min: int, count: nat, page: seq<string>) {
    && |page| <= count
    && (forall i :: 0 <= i < |page| ==> page[i] in m && m[page[i]] >= min)
    && (forall i, j :: 0 <= i < j < |page| ==> Before(m, page[i], page[j]))
    && (forall x :: x in m && m[x] >= min && x !in page ==>
          |page| == count && forall i :: 0 <= i < |page| ==> Before(m, page[i], x))
  }

  /** The members of a run of entries starting at the first one scored at least `min` qualify and are ordered. */
  lemma RunQualifiesInOrder(z: ZSet, min: int, k: nat, n: nat)
    requires k + n <= |z|
    requires k < |z| ==> z[k].score >= min
    ensures forall p :: k <= p < k + n ==> z[p].member in ToMap(z) && ToMap(z)[z[p].member] >= min
    ensures forall p, q :: k <= p < q < k + n ==> Before(ToMap(z), z[p].member, z[q].member)
  {
    forall p | k <= p < k + n
      ensures z[p].member in ToMap(z) && ToMap(z)[z[p].member] >= min
    {
      ToMapAt(z, p);
      assert p > k ==> Precedes(z[k], z[p]);
    }
    forall p, q | k <= p < q < k + n
      ensures Before(ToMap(z), z[p].member, z[q].member)
    {
      ToMapAt(z, p);
      ToMapAt(z, q);
    }
  }

  /**
   * A qualifying member left out of the run comes after the whole run,
   * and then the run has its full length.
   */
  lemma RunIsEarliest(z: ZSet, min: int, count: nat, k: nat, n: nat, x: string)
    requires k + n <= |z| && n <= count
    requires forall p :: 0 <= p < k ==> z[p].score < min
    requires n == count || k + n == |z|
    requires x in ToMap(z) && ToMap(z)[x] >= min
    requires forall p :: k <= p < k + n ==> z[p].member != x
    ensures n == count
    ensures forall p :: k <= p < k + n ==> Before(ToMap(z), z[p].member, x)
  {
    var px := MemberIndex(z, x);
    ToMapAt(z, px);
    assert px >= k + n;
    forall p | k <= p < k + n
      ensures Before(ToMap(z), z[p].member, x)
    {
      ToMapAt(z, p);
      assert Precedes(z[p], z[px]);
    }
  }

  /** The page read off a run: position i holds the member of entry k + i. */
  lemma RunPageAt(z: ZSet, k: nat, n: nat, page: seq<string>)
    requires k + n <= |z| && page == MembersOf(z[k..k + n])
    ensures |page| == n && forall i :: 0 <= i < n ==> page[i] == z[k + i].member
  {
    forall i | 0 <= i < n
      ensures page[i] == z[k + i].member
    {
      assert z[k..k + n][i] == z[k + i];
    }
  }

  lemma RunPageOrdered(z: ZSet, min: int, k: nat, n: nat, page: seq<string>)
    requires k + n <= |z| && page == MembersOf(z[k..k + n])
    requires k < |z| ==> z[k].score >= min
    ensures forall i :: 0 <= i < |page| ==> page[i] in ToMap(z) && ToMap(z)[page[i]] >= min
    ensures forall i, j :: 0 <= i < j < |page| ==> Before(ToMap(z), page[i], page[j])
  {
    RunPageAt(z, k, n, page);
    RunQualifiesInOrder(z, min, k, n);
    forall i, j | 0 <= i < j < |page|
      ensures Before(ToMap(z), page[i], page[j])
    {
      assert page[i] == z[k + i].member;
      assert page[j] == z[k + j].member;
    }
  }

  lemma RunPageComplete(z: ZSet, min: int, count: nat, k: nat, n: nat, page: seq<string>, x: string)
    requires k + n <= |z| && n <= count && page == MembersOf(z[k..k + n])
    requires forall p :: 0 <= p < k ==> z[p].score < min
    requires n == count || k + n == |z|
    requires x in ToMap(z) && ToMap(z)[x] >= min && x !in page
    ensures |page| == count && forall i :: 0 <= i < |page| ==> Before(ToMap(z), page[i], x)
  {
    RunPageAt(z, k, n, page);
    forall p | k <= p < k + n
      ensures z[p].member != x
    {
      assert page[p - k] == z[p].member;
    }
    RunIsEarliest(z, min, count, k, n, x);
    forall i | 0 <= i < |page|
      ensures Before(ToMap(z), page[i], x)
    {
      assert page[i] == z[k + i].member;
    }
  }

  lemma PageOfRun(z: ZSet, min: int, count: nat, k: nat, n: nat)
    requires k + n <= |z| && n <= count
    requires forall p :: 0 <= p < k ==> z[p].score < min
    requires k < |z| ==> z[k].score >= min
    requires n == count || k + n == |z|
    ensures IsPage(ToMap(z), min, count, MembersOf(z[k..k + n]))
  {
    var page := MembersOf(z[k..k + n]);
    RunPageOrdered(z, min, k, n, page);
    forall x | x in ToMap(z) && ToMap(z)[x] >= min && x !in page
      ensures |page| == count && forall i :: 0 <= i < |page| ==> Before(ToMap(z), page[i], x)
    {
      RunPageComplete(z, min, count, k, n, page, x);
    }
  }

  /** The run RangeByScore reads: from the first entry scored at least `min`, at most `count` entries. */
  lemma SkipThenTake(z: ZSet, min: int, count: nat)
    ensures var rest := SkipBelow(z, min);
      var n := if count < |rest| then count else |rest|;
      IsPage(ToMap(z), min, count, MembersOf(rest[..n]))
  {
    var rest := SkipBelow(z, min);
    var k := |z| - |rest|;
    var n := if count < |rest| then count else |rest|;
    PageOfRun(z, min, count, k, n);
    assert rest[..n] == z[k..k + n];
  }

  /**
   * ZRANGE key min +inf BYSCORE LIMIT 0 count: the members scored at least
   * `min`, in ascending (score, member) order, at most `count` of them.
   */
  function RangeByScore(z: ZSet, min: int, count: nat): (page: seq<string>)
    ensures IsPage(ToMap(z), min, count, page)
  {
    var rest := SkipBelow(z, min);
    var n := if count < |rest| then count else |rest|;
    SkipThenTake(z, min, count);
    MembersOf(rest[..n])
  }

  lemma BeforeIrreflexive(m: map<string, int>, a: string)
    ensures !Before(m, a, a)
  {
    if a in m {
      PrecedesIrreflexive(Entry(a, m[a]));
    }
  }

  lemma BeforeAsymmetric(m: map<string, int>, a: string, b: string)
    ensures Before(m, a, b) ==> !Before(m, b, a)
  {
    if a in m && b in m {
      PrecedesAsymmetric(Entry(a, m[a]), Entry(b, m[b]));
    }
  }

  /** A page lists no member twice. */
  lemma PageDistinct(m: map<string, int>, min: int, count: nat, p: seq<string>)
    requires IsPage(m, min, count, p)
    ensures forall i, j :: 0 <= i < j < |p| ==> p[i] != p[j]
  {
    forall i, j | 0 <= i < j < |p|
      ensures p[i] != p[j]
    {
      BeforeIrreflexive(m, p[i]);
    }
  }

  /**
   * A member that sorts before the page's i-th member, and is not among
   * the first i, is not on the page at all.
   */
  lemma EarlierNotInPage(m: map<string, int>, min: int, count: nat, q: seq<string>, i: nat, a: string)
    requires IsPage(m, min, count, q)
    requires i < |q| && Before(m, a, q[i])
    requires forall j :: 0 <= j < i ==> q[j] != a
    ensures a !in q
  {
    BeforeIrreflexive(m, a);
    BeforeAsymmetric(m, a, q[i]);
    forall j | i < j < |q|
      ensures q[j] != a
    {
      assert Before(m, q[i], q[j]);
    }
  }

  /** The member just past a proper prefix of a page is not in that prefix. */
  lemma NextNotInPrefix(m: map<string, int>, min: int, count: nat, p: seq<string>, q: seq<string>)
    requires IsPage(m, min, count, q)
    requires |p| < |q| && p == q[..|p|]
    ensures q[|p|] !in p
  {
    forall j | 0 <= j < |p|
      ensures p[j] != q[|p|]
    {
      assert p[j] == q[j];
      assert Before(m, q[j], q[|p|]);
      BeforeIrreflexive(m, q[j]);
    }
  }

  /** The length of the longest common prefix of two sequences. */
  lemma CommonPrefix(p1: seq<string>, p2: seq<string>) returns (i: nat)
    ensures i <= |p1| && i <= |p2| && p1[..i] == p2[..i]
    ensures i < |p1| && i < |p2| ==> p1[i] != p2[i]
  {
    i := 0;
    while i < |p1| && i < |p2| && p1[i] == p2[i]
      invariant i <= |p1| && i <= |p2|
      invariant p1[..i] == p2[..i]
    {
      i := i + 1;
    }
  }

  /** Two pages cannot first differ at a position both of them have. */
  lemma NoDifferingPosition(m: map<string, int>, min: int, count: nat, p1: seq<string>, p2: seq<string>, i: nat)
    requires IsPage(m, min, count, p1) && IsPage(m, min, count, p2)
    requires i < |p1| && i < |p2| && p1[..i] == p2[..i]
    ensures p1[i] == p2[i]
  {
    var a, b := p1[i], p2[i];
    PageDistinct(m, min, count, p1);
    PageDistinct(m, min, count, p2);
    assert forall j :: 0 <= j < i ==> p1[j] == p2[j];
    if a != b {
      PrecedesTotal(Entry(a, m[a]), Entry(b, m[b]));
      BeforeAsymmetric(m, a, b);
      if Before(m, a, b) {
        EarlierNotInPage(m, min, count, p2, i, a);
      } else {
        EarlierNotInPage(m, min, count, p1, i, b);
      }
    }
  }

  /** A page is determined by the content it is taken from. */
  lemma PageUnique(m: map<string, int>, min: int, count: nat, p1: seq<string>, p2: seq<string>)
    requires IsPage(m, min, count, p1) && IsPage(m, min, count, p2)
    ensures p1 == p2
  {
    var i := CommonPrefix(p1, p2);
    if i < |p1| && i < |p2| {
      NoDifferingPosition(m, min, count, p1, p2, i);
    } else if i < |p2| {
      NextNotInPrefix(m, min, count, p1, p2);
    } else if i < |p1| {
      NextNotInPrefix(m, min, count, p2, p1);
    } else {
      assert p1 == p1[..i] && p2 == p2[..i];
    }
  }
}
