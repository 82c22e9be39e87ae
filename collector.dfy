/**
 * The collection loop of `update_prices`: for every sitemap entry, scrape a
 * BRL listing; when it yields a record, store it under its set number, build
 * the Brickset URL for that set, scrape the reference page and store the USD
 * record it yields. Any exception on a page is caught and the loop goes on;
 * a keyboard interrupt ends the loop, keeping what was gathered.
 */
module Collector {
  import opened Wrappers
  import opened Dicts
  import opened Brickset

  /** How one scrape ends: with a value, with a caught exception, or with KeyboardInterrupt. */
  datatype Outcome<T> = Done(value: T) | Raised | Interrupted

  /**
   * What the network and the scrapers produce for one sitemap entry: the
   * result of `get_legobrasil_price(url)`, and what fetching the Brickset
   * page returns if that page is asked for.
   */
  datatype Visit = Visit(listing: Outcome<Option<SetPrice>>, reference: Outcome<SetPage>)

  /** The loop's state: both maps, the Brickset URLs requested so far, and whether the loop was broken off. */
  datatype Collected = Collected(brl: Dict<SetPrice>, usd: Dict<SetPrice>, lookups: seq<string>, interrupted: bool)

  function Start(): (c: Collected)
    ensures c.brl.order == [] && c.usd.order == [] && c.lookups == [] && !c.interrupted
  {
    Collected(Empty(), Empty(), [], false)
  }

  /** One pass of the loop body (brickbr.py:57-72). */
  function Step(c: Collected, v: Visit, amount: string -> nat): Collected
  {
    match v.listing
    case Interrupted => c.(interrupted := true)
    case Raised => c
    case Done(None) => c
    case Done(Some(b)) =>
      var url := SetUrl(b.setNumber);
      var c1 := c.(brl := Insert(c.brl, b.setNumber, b), lookups := c.lookups + [url]);
      match v.reference
      case Interrupted => c1.(interrupted := true)
      case Raised => c1
      case Done(page) =>
        match PageRecord(page, b.setNumber, url, amount)
        case None => c1
        case Some(u) => c1.(usd := Insert(c1.usd, u.setNumber, u))
  }

  /** The state after the loop has run over `visits`, stopping at the first interrupt. */
  function Collect(visits: seq<Visit>, amount: string -> nat): Collected
    decreases |visits|
  {
    if visits == [] then Start()
    else
      var c := Collect(visits[..|visits| - 1], amount);
      if c.interrupted then c else Step(c, visits[|visits| - 1], amount)
  }

  /**
   * What the maps and the request log always satisfy: every record sits
   * under its own set number; a USD record exists only for a set that has a
   * BRL record and carries that set's Brickset URL; the Brickset URLs
   * requested are exactly those of the sets in the BRL map.
   */
  ghost predicate Consistent(c: Collected) {
    && Keyed(c.brl)
    && Keyed(c.usd)
    && ReferencesListed(c.usd, c.brl)
    && RequestsListed(c.lookups, c.brl)
  }

  /** Every record sits under its own set number. */
  ghost predicate Keyed(d: Dict<SetPrice>) {
    forall k :: k in d.entries ==> d.entries[k].setNumber == k
  }

  /** A USD record exists only for a set with a BRL record, and comes from that set's Brickset URL. */
  ghost predicate ReferencesListed(usd: Dict<SetPrice>, brl: Dict<SetPrice>) {
    forall k :: k in usd.entries ==> k in brl.entries && usd.entries[k].url == SetUrl(k)
  }

  /** The Brickset URLs requested are exactly those of the sets in the BRL map. */
  ghost predicate RequestsListed(lookups: seq<string>, brl: Dict<SetPrice>) {
    && (forall n :: 0 <= n < |lookups| ==> SetOfUrl(lookups[n]).Some? && SetOfUrl(lookups[n]).value in brl.entries)
    && (forall k :: k in brl.entries ==> SetUrl(k) in lookups)
  }

  /** Storing a record under its own set number keeps a map keyed. */
  lemma KeyedInsert(d: Dict<SetPrice>, p: SetPrice)
    requires Keyed(d)
    ensures Keyed(Insert(d, p.setNumber, p))
  {
    var r := Insert(d, p.setNumber, p);
    forall k | k in r.entries ensures r.entries[k].setNumber == k {
      if k != p.setNumber {
        assert r.entries[k] == d.entries[k];
      }
    }
  }

  /** Adding a BRL record keeps every USD record backed by one. */
  lemma ReferencesListedGrow(usd: Dict<SetPrice>, brl: Dict<SetPrice>, p: SetPrice)
    requires ReferencesListed(usd, brl)
    ensures ReferencesListed(usd, Insert(brl, p.setNumber, p))
  {
    var r := Insert(brl, p.setNumber, p);
    assert forall k :: k in brl.entries ==> k in r.entries;
  }

  /** Adding the USD record of a listed set, carrying that set's Brickset URL, keeps every USD record backed. */
  lemma ReferencesListedInsert(usd: Dict<SetPrice>, brl: Dict<SetPrice>, u: SetPrice)
    requires ReferencesListed(usd, brl)
    requires u.setNumber in brl.entries && u.url == SetUrl(u.setNumber)
    ensures ReferencesListed(Insert(usd, u.setNumber, u), brl)
  {
    var r := Insert(usd, u.setNumber, u);
    forall k | k in r.entries ensures k in brl.entries && r.entries[k].url == SetUrl(k) {
      if k != u.setNumber {
        assert r.entries[k] == usd.entries[k];
      }
    }
  }

  /** Requesting a listed set's Brickset page along with storing its BRL record keeps the log exact. */
  lemma RequestsListedGrow(lookups: seq<string>, brl: Dict<SetPrice>, p: SetPrice)
    requires RequestsListed(lookups, brl)
    ensures RequestsListed(lookups + [SetUrl(p.setNumber)], Insert(brl, p.setNumber, p))
  {
    var url := SetUrl(p.setNumber);
    var r := Insert(brl, p.setNumber, p);
    var l := lookups + [url];
    forall n | 0 <= n < |l| ensures SetOfUrl(l[n]).Some? && SetOfUrl(l[n]).value in r.entries {
      if n < |lookups| {
        assert l[n] == lookups[n];
      } else {
        SetUrlRoundTrip(p.setNumber, url);
      }
    }
    forall k | k in r.entries ensures SetUrl(k) in l {
      if k == p.setNumber {
        assert l[|lookups|] == url;
      } else {
        assert k in brl.entries;
        var n :| 0 <= n < |lookups| && lookups[n] == SetUrl(k);
        assert l[n] == lookups[n];
      }
    }
  }

  /** Storing a BRL record and requesting its Brickset page keeps the state consistent. */
  lemma ListingKeepsConsistent(c: Collected, b: SetPrice)
    requires Consistent(c)
    ensures Consistent(c.(brl := Insert(c.brl, b.setNumber, b), lookups := c.lookups + [SetUrl(b.setNumber)]))
  {
    KeyedInsert(c.brl, b);
    ReferencesListedGrow(c.usd, c.brl, b);
    RequestsListedGrow(c.lookups, c.brl, b);
  }

  /** Storing the USD record of a set already in the BRL map keeps the state consistent. */
  lemma ReferenceKeepsConsistent(c: Collected, u: SetPrice)
    requires Consistent(c)
    requires u.setNumber in c.brl.entries && u.url == SetUrl(u.setNumber)
    ensures Consistent(c.(usd := Insert(c.usd, u.setNumber, u)))
  {
    KeyedInsert(c.usd, u);
    ReferencesListedInsert(c.usd, c.brl, u);
  }

  lemma StepConsistent(c: Collected, v: Visit, amount: string -> nat)
    requires Consistent(c)
    ensures Consistent(Step(c, v, amount))
  {
    if v.listing.Done? && v.listing.value.Some? {
      var b := v.listing.value.value;
      var url := SetUrl(b.setNumber);
      var c1 := c.(brl := Insert(c.brl, b.setNumber, b), lookups := c.lookups + [url]);
      ListingKeepsConsistent(c, b);
      if v.reference.Done? {
        var r := PageRecord(v.reference.value, b.setNumber, url, amount);
        if r.Some? {
          ReferenceKeepsConsistent(c1, r.value);
        }
      }
    }
  }

  lemma {:induction false} CollectConsistent(visits: seq<Visit>, amount: string -> nat)
    ensures Consistent(Collect(visits, amount))
    decreases |visits|
  {
    if visits != [] {
      var init := visits[..|visits| - 1];
      CollectConsistent(init, amount);
      if !Collect(init, amount).interrupted {
        StepConsistent(Collect(init, amount), visits[|visits| - 1], amount);
      }
    }
  }

  /** The BRL record of the last visit whose listing yielded set `k`. */
  function LastListing(visits: seq<Visit>, k: string): Option<SetPrice>
    decreases |visits|
  {
    if visits == [] then None
    else
      var v := visits[|visits| - 1];
      if v.listing.Done? && v.listing.value.Some? && v.listing.value.value.setNumber == k
      then v.listing.value
      else LastListing(visits[..|visits| - 1], k)
  }

  /** The USD record of the last visit whose listing yielded set `k` and whose Brickset page yielded a record. */
  function LastReference(visits: seq<Visit>, k: string, amount: string -> nat): Option<SetPrice>
    decreases |visits|
  {
    if visits == [] then None
    else
      var v := visits[|visits| - 1];
      if v.listing.Done? && v.listing.value.Some? && v.listing.value.value.setNumber == k
         && v.reference.Done? && PageRecord(v.reference.value, k, SetUrl(k), amount).Some?
      then PageRecord(v.reference.value, k, SetUrl(k), amount)
      else LastReference(visits[..|visits| - 1], k, amount)
  }

  /** The Brickset URLs of the listings that yielded a record, in visiting order. */
  function Requests(visits: seq<Visit>): seq<string>
    decreases |visits|
  {
    if visits == [] then []
    else
      var v := visits[|visits| - 1];
      Requests(visits[..|visits| - 1])
        + if v.listing.Done? && v.listing.value.Some? then [SetUrl(v.listing.value.value.setNumber)] else []
  }

  /** What one pass does to each entry of the maps and to the request log. */
  lemma StepEffect(c: Collected, v: Visit, amount: string -> nat, k: string)
    ensures Get(Step(c, v, amount).brl, k)
      == if v.listing.Done? && v.listing.value.Some? && v.listing.value.value.setNumber == k
         then v.listing.value else Get(c.brl, k)
    ensures Get(Step(c, v, amount).usd, k)
      == if v.listing.Done? && v.listing.value.Some? && v.listing.value.value.setNumber == k
            && v.reference.Done? && PageRecord(v.reference.value, k, SetUrl(k), amount).Some?
         then PageRecord(v.reference.value, k, SetUrl(k), amount) else Get(c.usd, k)
    ensures Step(c, v, amount).lookups
      == c.lookups + if v.listing.Done? && v.listing.value.Some? then [SetUrl(v.listing.value.value.setNumber)] else []
  {
  }

  /**
   * A run that was not interrupted: each map holds, for every set, the record
   * of the last visit that produced one (last write wins), and a Brickset
   * page was requested once per BRL record found, in order, and never otherwise.
   */
  lemma {:induction false} CollectIsLastWrite(visits: seq<Visit>, amount: string -> nat, k: string)
    requires !Collect(visits, amount).interrupted
    ensures Get(Collect(visits, amount).brl, k) == LastListing(visits, k)
    ensures Get(Collect(visits, amount).usd, k) == LastReference(visits, k, amount)
    ensures Collect(visits, amount).lookups == Requests(visits)
    decreases |visits|
  {
    if visits != [] {
      var init := visits[..|visits| - 1];
      var c := Collect(init, amount);
      if !c.interrupted {
        CollectIsLastWrite(init, amount, k);
        StepEffect(c, visits[|visits| - 1], amount, k);
      }
    }
  }

  /** A page whose listing raised or yielded nothing leaves both maps and the request log as they were. */
  lemma FailedListingChangesNothing(visits: seq<Visit>, v: Visit, amount: string -> nat)
    requires v.listing == Raised || v.listing == Done(None)
    ensures Collect(visits + [v], amount) == Collect(visits, amount)
  {
    assert (visits + [v])[..|visits|] == visits;
  }

  /**
   * When the Brickset side of a page fails (an exception, a missing RRP or
   * no dollar price), the BRL record stored just before stays stored, the
   * other BRL entries and the whole USD map are unchanged.
   */
  lemma ReferenceFailureKeepsListing(visits: seq<Visit>, b: SetPrice, reference: Outcome<SetPage>, amount: string -> nat)
    requires !Collect(visits, amount).interrupted
    requires reference.Raised? || (reference.Done? && PageRecord(reference.value, b.setNumber, SetUrl(b.setNumber), amount).None?)
    ensures var before, after := Collect(visits, amount), Collect(visits + [Visit(Done(Some(b)), reference)], amount);
      && Get(after.brl, b.setNumber) == Some(b)
      && (forall k :: k != b.setNumber ==> Get(after.brl, k) == Get(before.brl, k))
      && after.usd == before.usd
      && after.lookups == before.lookups + [SetUrl(b.setNumber)]
      && !after.interrupted
  {
    assert (visits + [Visit(Done(Some(b)), reference)])[..|visits|] == visits;
  }

  /**
   * A keyboard interrupt is the only way a pass breaks the loop off. It keeps
   * what was gathered: an interrupt during the listing scrape changes
   * nothing, one during the Brickset request keeps the BRL record already
   * stored and the request made, and leaves the USD map alone.
   */
  lemma StepInterrupt(c: Collected, v: Visit, amount: string -> nat)
    requires !c.interrupted
    ensures Step(c, v, amount).interrupted
      <==> v.listing.Interrupted? || (v.listing.Done? && v.listing.value.Some? && v.reference.Interrupted?)
    ensures v.listing.Interrupted? ==> Step(c, v, amount) == c.(interrupted := true)
    ensures v.listing.Done? && v.listing.value.Some? && v.reference.Interrupted? ==>
      var b := v.listing.value.value;
      Step(c, v, amount) == Collected(Insert(c.brl, b.setNumber, b), c.usd, c.lookups + [SetUrl(b.setNumber)], true)
  {
  }

  /**
   * The loop ends with the first interrupted entry: the final state is the
   * state after the last entries that were collected, whatever follows.
   */
  lemma {:induction false} InterruptedStays(visits: seq<Visit>, n: nat, amount: string -> nat)
    requires n <= |visits|
    requires Collect(visits[..n], amount).interrupted
    ensures Collect(visits, amount) == Collect(visits[..n], amount)
    decreases |visits| - n
  {
    if n == |visits| {
      assert visits[..n] == visits;
    } else {
      var init := visits[..|visits| - 1];
      assert init[..n] == visits[..n];
      InterruptedStays(init, n, amount);
    }
  }

  /** Running on to the next entry from a state that was not interrupted is one more Step. */
  lemma CollectNext(visits: seq<Visit>, i: nat, amount: string -> nat)
    requires i < |visits| && !Collect(visits[..i], amount).interrupted
    ensures Collect(visits[..i + 1], amount) == Step(Collect(visits[..i], amount), visits[i], amount)
  {
    assert visits[..i + 1][..i] == visits[..i];
  }

  /** `update_prices` without the sitemap download and the JSON dump: the loop over the entries. */
  method UpdatePrices(visits: seq<Visit>, amount: string -> nat)
    returns (brl: Dict<SetPrice>, usd: Dict<SetPrice>, lookups: seq<string>)
    ensures var c := Collect(visits, amount); brl == c.brl && usd == c.usd && lookups == c.lookups
  {
    brl, usd, lookups := Empty(), Empty(), [];
    var i := 0;
    while i < |visits|
      invariant 0 <= i <= |visits|
      invariant Collect(visits[..i], amount) == Collected(brl, usd, lookups, false)
    {
      CollectNext(visits, i, amount);
      var v := visits[i];
      match v.listing {
        case Interrupted =>
          InterruptedStays(visits, i + 1, amount);
          break;
        case Raised =>
        case Done(found) =>
          if found.Some? {
            var b := found.value;
            brl := Insert(brl, b.setNumber, b);
            var url := SetUrl(b.setNumber);
            lookups := lookups + [url];
            match v.reference {
              case Interrupted =>
                InterruptedStays(visits, i + 1, amount);
                break;
              case Raised =>
              case Done(page) =>
                var u := PageRecord(page, b.setNumber, url, amount);
                if u.Some? {
                  usd := Insert(usd, u.value.setNumber, u.value);
                }
            }
          }
      }
      i := i + 1;
    }
    if i == |visits| {
      assert visits[..i] == visits;
    }
  }
}
