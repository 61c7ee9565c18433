/** How many threads of a table satisfy a predicate. */
module Counting {
  ghost function Those<T>(threads: map<nat, T>, p: T -> bool): set<nat> {
    set t | t in threads && p(threads[t])
  }

  ghost function Count<T>(threads: map<nat, T>, p: T -> bool): nat { |Those(threads, p)| }

  lemma CountUpdate<T>(threads: map<nat, T>, t: nat, th: T, p: T -> bool)
    requires t in threads
    ensures Count(threads[t := th], p) ==
              Count(threads, p) - (if p(threads[t]) then 1 else 0) + (if p(th) then 1 else 0)
  {
    var rest := Those(threads, p) - {t};
    assert Those(threads, p) == if p(threads[t]) then rest + {t} else rest;
    assert Those(threads[t := th], p) == if p(th) then rest + {t} else rest;
  }

  lemma CountPositive<T>(threads: map<nat, T>, p: T -> bool, u: nat)
    requires u in threads
    ensures p(threads[u]) ==> Count(threads, p) >= 1
  {
    if p(threads[u]) { assert u in Those(threads, p); }
  }

  lemma CountNone<T>(threads: map<nat, T>, p: T -> bool)
    requires forall u :: u in threads ==> !p(threads[u])
    ensures Count(threads, p) == 0
  {}

  lemma CountSome<T>(threads: map<nat, T>, p: T -> bool)
    ensures Count(threads, p) > 0 <==> exists u :: u in threads && p(threads[u])
  {
    if u :| u in threads && p(threads[u]) {
      CountPositive(threads, p, u);
    } else {
      CountNone(threads, p);
    }
  }
}
