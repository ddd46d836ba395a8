/** The quality-gated chain of scrapers: ask one after the other, pool what is new, and stop as soon as
    something new is good enough to be picked. Scoring is an arbitrary function. */
module SearchChain {
  import opened Prelude

  /** `title` tells candidates of the same file apart. */
  datatype Candidate = Candidate(md5: Option<string>, title: string)

  datatype Score = Score(total: real, hardSkip: bool)

  /** How one scraper answers; a missing implementation and an error are passed over. */
  datatype Answer = NotImplemented | SearchError | Candidates(list: seq<Candidate>)

  datatype Scraper = Scraper(name: string, answer: Answer)

  predicate HasMd5(c: Candidate) {
    c.md5.Some? && c.md5.value != ""
  }

  function Offered(s: Scraper): seq<Candidate> {
    if s.answer.Candidates? then s.answer.list else []
  }

  function Md5sOf(cands: seq<Candidate>): set<string> {
    set c | c in cands && HasMd5(c) :: c.md5.value
  }

  // The reference.

  /** Every md5 that an earlier scraper offered. */
  function Md5sBefore(chain: seq<Scraper>, n: nat): set<string>
    requires n <= |chain|
  {
    if n == 0 then {} else Md5sBefore(chain, n - 1) + Md5sOf(Offered(chain[n - 1]))
  }

  predicate IsNew(c: Candidate, seen: set<string>) {
    HasMd5(c) ==> c.md5.value !in seen
  }

  function NewOnes(cands: seq<Candidate>, seen: set<string>): seq<Candidate> {
    Filter((c: Candidate) => IsNew(c, seen), cands)
  }

  /** What scraper `i` adds to the pool. */
  function Fresh(chain: seq<Scraper>, i: nat): seq<Candidate>
    requires i < |chain|
  {
    NewOnes(Offered(chain[i]), Md5sBefore(chain, i))
  }

  /** The union over a prefix of the chain, without what an earlier scraper had. */
  function Pooled(chain: seq<Scraper>, n: nat): seq<Candidate>
    requires n <= |chain|
  {
    if n == 0 then [] else Pooled(chain, n - 1) + Fresh(chain, n - 1)
  }

  predicate GoodEnough(score: Candidate -> Score, c: Candidate, floor: real) {
    !score(c).hardSkip && score(c).total >= floor
  }

  ghost predicate Reaches(score: Candidate -> Score, cands: seq<Candidate>, floor: real) {
    exists c :: c in cands && GoodEnough(score, c, floor)
  }

  /** Scraper `i` ends the search. The probe starts at zero, so a floor of zero or less is always reached. */
  ghost predicate Stops(score: Candidate -> Score, chain: seq<Scraper>, floor: real, i: nat)
    requires i < |chain|
  {
    Offered(chain[i]) != [] && (floor <= 0.0 || Reaches(score, Fresh(chain, i), floor))
  }

  /** The last scraper of a prefix that offered anything. */
  function LastToOffer(chain: seq<Scraper>, n: nat): Option<string>
    requires n <= |chain|
  {
    if n == 0 then None
    else if Offered(chain[n - 1]) != [] then Some(chain[n - 1].name)
    else LastToOffer(chain, n - 1)
  }

  // The search.

  /** The best total that is not a hard skip, starting at zero. */
  method PeekTop(score: Candidate -> Score, cands: seq<Candidate>) returns (top: real)
    ensures top >= 0.0
    ensures forall floor :: top >= floor <==> floor <= 0.0 || Reaches(score, cands, floor)
  {
    top := 0.0;
    ghost var best: Option<Candidate> := None;
    for i := 0 to |cands|
      invariant top >= 0.0
      invariant forall j :: 0 <= j < i && !score(cands[j]).hardSkip ==> score(cands[j]).total <= top
      invariant best.None? ==> top == 0.0
      invariant best.Some? ==> best.value in cands && GoodEnough(score, best.value, top)
    {
      var s := score(cands[i]);
      if !s.hardSkip && s.total > top {
        top, best := s.total, Some(cands[i]);
      }
    }
    forall floor | floor > 0.0 && Reaches(score, cands, floor)
      ensures top >= floor
    {
      var c :| c in cands && GoodEnough(score, c, floor);
      var j :| 0 <= j < |cands| && cands[j] == c;
    }
    forall floor | floor > 0.0 && top >= floor
      ensures Reaches(score, cands, floor)
    {
      assert GoodEnough(score, best.value, floor);
    }
  }

  function Floor(configuredFloor: real, threshold: real): real {
    if configuredFloor < threshold then threshold else configuredFloor
  }

  /** The pool is the union over the shortest prefix of the chain that ends in a scraper with something new
      and good enough, or over the whole chain. `marked` tells whether the book was marked as searched. */
  ghost predicate Searched(score: Candidate -> Score, chain: seq<Scraper>, floor: real, pool: seq<Candidate>,
                           strategy: Option<string>, asked: nat, marked: bool) {
    && asked <= |chain| && pool == Pooled(chain, asked)
    && (forall i :: 0 <= i < asked - 1 ==> !Stops(score, chain, floor, i))
    && (asked == |chain| || (asked > 0 && Stops(score, chain, floor, asked - 1)))
    && strategy == LastToOffer(chain, asked)
    && (marked <==> pool != [])
  }

  method Search(score: Candidate -> Score, chain: seq<Scraper>, configuredFloor: real, threshold: real)
    returns (pool: seq<Candidate>, strategy: Option<string>, asked: nat, marked: bool)
    ensures Searched(score, chain, Floor(configuredFloor, threshold), pool, strategy, asked, marked)
  {
    hide Stops, Fresh, Reaches, NewOnes, Md5sOf;
    var floor := Floor(configuredFloor, threshold);
    pool, strategy := [], None;
    var seen: set<string> := {};
    for i := 0 to |chain|
      invariant pool == Pooled(chain, i) && seen == Md5sBefore(chain, i)
      invariant strategy == LastToOffer(chain, i)
      invariant forall j :: 0 <= j < i ==> !Stops(score, chain, floor, j)
    {
      StopsUnfolds(score, chain, floor, i);
      var cands := Offered(chain[i]);
      if cands == [] {
        NothingOffered(chain, i);
        continue;
      }
      var added := NewOnes(cands, seen);
      SeenGrows(cands, seen);
      seen := seen + Md5sOf(added);
      pool := pool + added;
      strategy := Some(chain[i].name);
      var top := PeekTop(score, added);
      if top >= floor {
        PoolIsNotEmpty(chain, i);
        return pool, strategy, i + 1, true;
      }
    }
    asked, marked := |chain|, pool != [];
  }

  /** A book whose source already names its page (`slug`) is not searched for at all. */
  method SearchBook(score: Candidate -> Score, chain: seq<Scraper>, configuredFloor: real, threshold: real,
                    slug: Option<string>, title: string)
    returns (pool: seq<Candidate>, strategy: Option<string>, asked: nat, marked: bool)
    ensures slug.Some? && slug.value != "" ==>
      pool == [Candidate(None, title)] && strategy == Some("kindlebangla_curl") && asked == 0 && marked
    ensures slug.None? || slug.value == "" ==>
      Searched(score, chain, Floor(configuredFloor, threshold), pool, strategy, asked, marked)
  {
    if slug.Some? && slug.value != "" {
      return [Candidate(None, title)], Some("kindlebangla_curl"), 0, true;
    }
    pool, strategy, asked, marked := Search(score, chain, configuredFloor, threshold);
  }

  lemma StopsUnfolds(score: Candidate -> Score, chain: seq<Scraper>, floor: real, i: nat)
    requires i < |chain|
    ensures Stops(score, chain, floor, i)
      <==> Offered(chain[i]) != [] && (floor <= 0.0 || Reaches(score, Fresh(chain, i), floor))
    ensures Fresh(chain, i) == NewOnes(Offered(chain[i]), Md5sBefore(chain, i))
  {
  }

  lemma NothingOffered(chain: seq<Scraper>, i: nat)
    requires i < |chain| && Offered(chain[i]) == []
    ensures Pooled(chain, i + 1) == Pooled(chain, i) && Md5sBefore(chain, i + 1) == Md5sBefore(chain, i)
  {
  }

  lemma {:induction false} NewOnesAre(cands: seq<Candidate>, seen: set<string>)
    ensures forall c :: c in NewOnes(cands, seen) <==> c in cands && IsNew(c, seen)
  {
    if cands != [] {
      NewOnesAre(cands[1..], seen);
      assert cands == [cands[0]] + cands[1..];
    }
  }

  /** Remembering only what was added amounts to remembering everything that was offered. */
  lemma SeenGrows(cands: seq<Candidate>, seen: set<string>)
    ensures seen + Md5sOf(NewOnes(cands, seen)) == seen + Md5sOf(cands)
  {
    NewOnesAre(cands, seen);
  }

  lemma ReachesEither(score: Candidate -> Score, a: seq<Candidate>, b: seq<Candidate>, floor: real)
    requires !Reaches(score, a, floor) && !Reaches(score, b, floor)
    ensures !Reaches(score, a + b, floor)
  {
  }

  /** The first scraper that offers anything adds something. */
  lemma PoolIsNotEmpty(chain: seq<Scraper>, i: nat)
    requires i < |chain| && Offered(chain[i]) != []
    ensures Pooled(chain, i + 1) != []
  {
    hide IsNew, Md5sOf, Pooled, HasMd5;
    var c := Offered(chain[i])[0];
    PoolCovers(chain, i, i + 1, c);
  }

  // What the pool is.

  lemma {:induction false} BeforeCovers(chain: seq<Scraper>, i: nat, n: nat, c: Candidate)
    requires i < n <= |chain| && c in Offered(chain[i]) && HasMd5(c)
    ensures c.md5.value in Md5sBefore(chain, n)
    decreases n
  {
    if i < n - 1 {
      BeforeCovers(chain, i, n - 1, c);
    } else {
      assert c.md5.value in Md5sOf(Offered(chain[i]));
    }
  }

  /** A file an earlier scraper offered never enters again from a later one. */
  lemma NoReentry(chain: seq<Scraper>, i: nat, j: nat, c: Candidate, d: Candidate)
    requires i < j < |chain| && c in Offered(chain[i]) && d in Fresh(chain, j)
    requires HasMd5(c) && HasMd5(d)
    ensures c.md5.value != d.md5.value
  {
    BeforeCovers(chain, i, j, c);
    NewOnesAre(Offered(chain[j]), Md5sBefore(chain, j));
  }

  lemma {:induction false} FreshIsPooled(chain: seq<Scraper>, i: nat, n: nat, c: Candidate)
    requires i < n <= |chain| && c in Fresh(chain, i)
    ensures c in Pooled(chain, n)
    decreases n
  {
    if i < n - 1 {
      FreshIsPooled(chain, i, n - 1, c);
    }
  }

  /** Nothing is lost: of every file offered in the prefix the pool has a candidate, and of candidates
      without an md5 it has each one. */
  lemma {:induction false} PoolCovers(chain: seq<Scraper>, i: nat, n: nat, c: Candidate)
    requires i < n <= |chain| && c in Offered(chain[i])
    ensures HasMd5(c) ==> exists d :: d in Pooled(chain, n) && d.md5 == c.md5
    ensures !HasMd5(c) ==> c in Pooled(chain, n)
    decreases i
  {
    NewOnesAre(Offered(chain[i]), Md5sBefore(chain, i));
    if IsNew(c, Md5sBefore(chain, i)) {
      FreshIsPooled(chain, i, n, c);
    } else {
      var k, e := OfferedBefore(chain, i, c.md5.value);
      PoolCovers(chain, k, n, e);
    }
  }

  lemma {:induction false} OfferedBefore(chain: seq<Scraper>, n: nat, md5: string) returns (k: nat, e: Candidate)
    requires n <= |chain| && md5 in Md5sBefore(chain, n)
    ensures k < n && e in Offered(chain[k]) && HasMd5(e) && e.md5.value == md5
    decreases n
  {
    if md5 in Md5sBefore(chain, n - 1) {
      k, e := OfferedBefore(chain, n - 1, md5);
    } else {
      k := n - 1;
      e :| e in Offered(chain[k]) && HasMd5(e) && e.md5.value == md5;
    }
  }

  /** With a positive threshold, stopping early means that the pool holds a candidate at or above it. */
  lemma EarlyStopIsPickable(score: Candidate -> Score, chain: seq<Scraper>, floor: real, threshold: real, n: nat)
    requires 0 < n <= |chain| && Stops(score, chain, floor, n - 1) && floor >= threshold && floor > 0.0
    ensures Reaches(score, Pooled(chain, n), threshold)
  {
    var c :| c in Fresh(chain, n - 1) && GoodEnough(score, c, floor);
    assert c in Pooled(chain, n) && GoodEnough(score, c, threshold);
  }

  /** A chain that never stops has nothing at or above the floor in its pool. */
  lemma {:induction false} ExhaustedIsBelowFloor(score: Candidate -> Score, chain: seq<Scraper>, floor: real, n: nat)
    requires n <= |chain| && forall i :: 0 <= i < n ==> !Stops(score, chain, floor, i)
    ensures !Reaches(score, Pooled(chain, n), floor)
    decreases n
  {
    if n > 0 {
      ExhaustedIsBelowFloor(score, chain, floor, n - 1);
      NewOnesAre(Offered(chain[n - 1]), Md5sBefore(chain, n - 1));
      assert !Stops(score, chain, floor, n - 1);
      assert !Reaches(score, Fresh(chain, n - 1), floor);
      ReachesEither(score, Pooled(chain, n - 1), Fresh(chain, n - 1), floor);
    }
  }
}
