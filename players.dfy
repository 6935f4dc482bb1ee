/** Operations on a room's player list (`connectedClients`). */
module Players {
  import opened Basics
  import opened Model

  /** `p.username == who?.username`: never true when `who` is null. */
  predicate Named(p: GamePlayer, who: Option<string>)
  {
    who == Some(p.username)
  }

  /** `indexOfFirst { it.username == who }`: the first position holding that
      username, or -1 when there is none. */
  function IndexOfFirst(ps: seq<GamePlayer>, who: Option<string>): (i: int)
    ensures -1 <= i < |ps|
    ensures 0 <= i ==> Named(ps[i], who) && forall j | 0 <= j < i :: !Named(ps[j], who)
    ensures i == -1 <==> forall j | 0 <= j < |ps| :: !Named(ps[j], who)
  {
    if |ps| == 0 then -1
    else if Named(ps[0], who) then 0
    else
      var k := IndexOfFirst(ps[1..], who);
      if k == -1 then -1 else k + 1
  }

  /** `isAllAnsweredExcept`: every player not named like the drawer has answered. */
  predicate AllAnsweredExcept(ps: seq<GamePlayer>, drawer: Option<string>)
  {
    forall i | 0 <= i < |ps| :: !Named(ps[i], drawer) ==> ps[i].isAnswered
  }

  /** The loop of `isAllAnsweredExcept`, with its early return. */
  method IsAllAnsweredExcept(clients: seq<GamePlayer>, currentPlayer: Option<string>) returns (b: bool)
    ensures b <==> AllAnsweredExcept(clients, currentPlayer)
  {
    for i := 0 to |clients|
      invariant forall j | 0 <= j < i :: !Named(clients[j], currentPlayer) ==> clients[j].isAnswered
    {
      if Named(clients[i], currentPlayer) {
        continue;
      }
      if !clients[i].isAnswered {
        return false;
      }
    }
    return true;
  }

  /** Position of the next drawer: the one after the current drawer's first
      position, the last wrapping to the first; 0 when the drawer is not found
      (its index is then -1). */
  function NextDrawerIndex(ps: seq<GamePlayer>, drawer: Option<string>): (k: nat)
    requires |ps| > 0
    ensures k < |ps|
    ensures k == (IndexOfFirst(ps, drawer) + 1) % |ps|
  {
    var i := IndexOfFirst(ps, drawer);
    if i == |ps| - 1 then
      assert (i + 1) % |ps| == 0 by { ModAddPeriod(0, |ps|); }
      0
    else
      assert (i + 1) % |ps| == i + 1 by { SmallMod(i + 1, |ps|); }
      i + 1
  }

  /** `connectedClients[i].score++`. */
  function Bump(ps: seq<GamePlayer>, i: nat): seq<GamePlayer>
    requires i < |ps|
  {
    ps[i := ps[i].(score := Inc(ps[i].score))]
  }

  /** A correct answer once both lookups succeeded: one point to the drawer at
      `d`, one to the answerer at `a` (two when they are one player), and the
      answerer is marked as having answered. */
  function Credit(ps: seq<GamePlayer>, d: nat, a: nat): (r: seq<GamePlayer>)
    requires d < |ps| && a < |ps|
    ensures |r| == |ps|
    ensures forall i | 0 <= i < |ps| :: r[i].username == ps[i].username
    ensures forall i | 0 <= i < |ps| :: r[i].isAnswered == (i == a || ps[i].isAnswered)
    ensures forall i | 0 <= i < |ps| ::
      r[i].score == if i == d && i == a then Inc(Inc(ps[i].score))
                    else if i == d || i == a then Inc(ps[i].score)
                    else ps[i].score
  {
    var bumped := Bump(Bump(ps, d), a);
    bumped[a := bumped[a].(isAnswered := true)]
  }

  /** The start of a new round for the players: nobody has answered yet, and
      names, scores and order are kept. */
  function ResetAnswers(ps: seq<GamePlayer>): (r: seq<GamePlayer>)
    ensures |r| == |ps|
    ensures forall i | 0 <= i < |ps| ::
      r[i].username == ps[i].username && r[i].score == ps[i].score && !r[i].isAnswered
  {
    seq(|ps|, i requires 0 <= i < |ps| => ps[i].(isAnswered := false))
  }

  /** `a` is `b` with some elements deleted, the order of the rest kept. */
  predicate IsSubsequence<T(==)>(a: seq<T>, b: seq<T>)
    decreases |b|
  {
    if |a| == 0 then true
    else if |b| == 0 then false
    else if a[0] == b[0] then IsSubsequence(a[1..], b[1..])
    else IsSubsequence(a, b[1..])
  }

  /** `removeIf { it.username == name }`: every player with that username goes,
      every other one stays, as often as it was there and in the same order. */
  function RemoveAll(ps: seq<GamePlayer>, name: string): (r: seq<GamePlayer>)
    ensures forall p | p in r :: p.username != name
    ensures forall p :: multiset(r)[p] == if p.username == name then 0 else multiset(ps)[p]
    ensures IsSubsequence(r, ps)
  {
    if |ps| == 0 then []
    else
      assert ps == [ps[0]] + ps[1..];
      var rest := RemoveAll(ps[1..], name);
      if ps[0].username == name then rest else [ps[0]] + rest
  }

  /** No username occurs twice in the list. */
  predicate UniqueNames(ps: seq<GamePlayer>)
  {
    forall i, j | 0 <= i < j < |ps| :: ps[i].username != ps[j].username
  }

  /** The drawer after `k` completed rounds, starting from `drawer`. */
  function DrawerAfter(ps: seq<GamePlayer>, drawer: Option<string>, k: nat): Option<string>
    requires |ps| > 0
    decreases k
  {
    if k == 0 then drawer else DrawerAfter(ps, Some(ps[NextDrawerIndex(ps, drawer)].username), k - 1)
  }

  /** With distinct usernames the turn goes round the list in join order:
      `k` rounds after player `j` drew, player `(j + k) mod n` draws. */
  lemma {:induction false} DrawerAfterRotates(ps: seq<GamePlayer>, j: nat, k: nat)
    requires |ps| > 0 && j < |ps| && UniqueNames(ps)
    ensures DrawerAfter(ps, Some(ps[j].username), k) == Some(ps[(j + k) % |ps|].username)
    decreases k
  {
    var n := |ps|;
    if k == 0 {
      SmallMod(j, n);
    } else {
      assert IndexOfFirst(ps, Some(ps[j].username)) == j;
      var next := if j == n - 1 then 0 else j + 1;
      assert NextDrawerIndex(ps, Some(ps[j].username)) == next;
      DrawerAfterRotates(ps, next, k - 1);
      if j + 1 == n {
        assert next + (k - 1) + n == j + k;
        ModAddPeriod(k - 1, n);
      } else {
        assert next + (k - 1) == j + k;
      }
    }
  }

  lemma SmallMod(x: nat, n: nat)
    requires x < n
    ensures x % n == x
  {
  }

  lemma ModAddPeriod(x: nat, n: nat)
    requires n > 0
    ensures (x + n) % n == x % n
  {
    var q := x / n;
    assert x == q * n + x % n;
    assert x + n == (q + 1) * n + x % n;
    ModUnique(x + n, n, q + 1, x % n);
  }

  /** The remainder is the only `r` in `[0, n)` with `a == q * n + r`. */
  lemma ModUnique(a: int, n: int, q: int, r: int)
    requires n > 0 && 0 <= r < n && a == q * n + r
    ensures a % n == r
  {
    var q' := a / n;
    var d := a % n - r;
    assert a == q' * n + a % n;
    assert (q - q') * n == d;
    if q > q' {
      MulAtLeast(q - q', n);
    } else if q < q' {
      MulAtLeast(q' - q, n);
    }
  }

  lemma {:induction false} MulAtLeast(m: int, n: int)
    requires m >= 1 && n > 0
    ensures m * n >= n
    decreases m
  {
    if m > 1 {
      MulAtLeast(m - 1, n);
      assert m * n == (m - 1) * n + n;
    }
  }
}
