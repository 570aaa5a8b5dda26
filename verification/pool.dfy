/** The proxy pool as `buscarProxiesWebShare` (bot.js:20-160) rebuilds it:
    the provider's listings are turned into proxy records, narrowed to the
    Brazilian ones, and the first few are probed so that the ones known to
    be dead are dropped. The provider's reply and the probe verdicts are
    inputs. */
module ProxyPool {
  import opened Seqs
  import opened Text

  /** How many proxies are probed at most. */
  const MaxProbed: nat := 10

  /** One entry of the provider's listing; `""` stands for a missing or
      `null` field. */
  datatype Listing = Listing(proxyAddress: string, port: nat, username: string,
                             password: string, countryCode: string, country: string)

  /** A pool entry. */
  datatype Proxy = Proxy(host: string, port: nat, username: string, password: string,
                         country: string)

  /** The mapping at bot.js:62-69: the country code wins when present,
      otherwise the country name is used. */
  function FromListing(l: Listing): Proxy {
    Proxy(l.proxyAddress, l.port, l.username, l.password,
          if l.countryCode != "" then l.countryCode else l.country)
  }

  function FromListings(ls: seq<Listing>): (r: seq<Proxy>)
    ensures |r| == |ls|
    ensures forall i :: 0 <= i < |ls| ==> r[i] == FromListing(ls[i])
  {
    if ls == [] then [] else [FromListing(ls[0])] + FromListings(ls[1..])
  }

  /** The country test at bot.js:73-77: upper-cased, the country is `BR` or
      `BRAZIL`. */
  predicate IsBrazilian(p: Proxy) {
    var c := ToUpper(p.country);
    c == "BR" || c == "BRAZIL"
  }

  /** `s` spells the upper-case ASCII `word` up to case: each character is
      the letter itself, its lower-case form, or one of the two non-ASCII
      letters that upper-case to `I` and `S`. */
  ghost predicate SpellsIgnoringCase(s: string, word: string) {
    |s| == |word| &&
    forall i :: 0 <= i < |s| ==>
      s[i] == word[i] || s[i] as int == word[i] as int + 32 ||
      (word[i] == 'I' && s[i] == '\U{0131}') || (word[i] == 'S' && s[i] == '\U{017F}')
  }

  lemma UpperCharIs(c: char, u: char)
    requires 'A' <= u <= 'Z'
    ensures UpperChar(c) == u <==>
      c == u || c as int == u as int + 32 || (u == 'I' && c == '\U{0131}') || (u == 'S' && c == '\U{017F}')
  {
  }

  /** Upper-casing gives an upper-case ASCII word exactly when the input
      spells it ignoring case. */
  lemma ToUpperIs(s: string, word: string)
    requires forall i :: 0 <= i < |word| ==> 'A' <= word[i] <= 'Z'
    ensures ToUpper(s) == word <==> SpellsIgnoringCase(s, word)
  {
    if |s| == |word| {
      forall i | 0 <= i < |s| {
        UpperCharIs(s[i], word[i]);
      }
      if SpellsIgnoringCase(s, word) {
        assert forall i :: 0 <= i < |s| ==> ToUpper(s)[i] == word[i];
      }
    }
  }

  /** The country test accepts the two words in any mix of cases and
      nothing else. */
  lemma IsBrazilianSpelling(p: Proxy)
    ensures IsBrazilian(p) <==>
      SpellsIgnoringCase(p.country, "BR") || SpellsIgnoringCase(p.country, "BRAZIL")
  {
    ToUpperIs(p.country, "BR");
    ToUpperIs(p.country, "BRAZIL");
  }

  /** A listing that has a country code passes the country test on that
      code alone, whatever its country name says. */
  lemma CodeDecides(l: Listing)
    requires l.countryCode != ""
    ensures IsBrazilian(FromListing(l)) <==>
      SpellsIgnoringCase(l.countryCode, "BR") || SpellsIgnoringCase(l.countryCode, "BRAZIL")
  {
    IsBrazilianSpelling(FromListing(l));
  }

  /** A listing without a country code is judged by its country name. */
  lemma NameDecides(l: Listing)
    requires l.countryCode == ""
    ensures IsBrazilian(FromListing(l)) <==>
      SpellsIgnoringCase(l.country, "BR") || SpellsIgnoringCase(l.country, "BRAZIL")
  {
    IsBrazilianSpelling(FromListing(l));
  }

  /** The code wins even against the name: a listing coded `US` but named
      `Brazil` is dropped, and one coded `br` but named `Argentina` is kept. */
  lemma CountryCodeWins(l: Listing)
    requires l.countryCode == "US" && l.country == "Brazil"
    ensures !IsBrazilian(FromListing(l))
    ensures IsBrazilian(FromListing(l.(countryCode := "br", country := "Argentina")))
  {
    CodeDecides(l);
    CodeDecides(l.(countryCode := "br", country := "Argentina"));
    assert !SpellsIgnoringCase("US", "BR") by {
      assert "US"[0] != "BR"[0] && "US"[0] as int != "BR"[0] as int + 32;
    }
    assert SpellsIgnoringCase("br", "BR") by {
      assert "br"[0] as int == "BR"[0] as int + 32;
      assert "br"[1] as int == "BR"[1] as int + 32;
    }
  }

  /** bot.js:62-77: the Brazilian entries of the listing, in listing order. */
  function KeepBrazilian(ls: seq<Listing>): (r: seq<Proxy>)
    ensures |r| <= |ls|
    ensures forall i :: 0 <= i < |r| ==> IsBrazilian(r[i])
  {
    Filter(FromListings(ls), IsBrazilian)
  }

  /** The kept records are exactly the listing's records at the positions
      whose record is Brazilian, each once and in listing order; so a record
      is kept exactly when it is Brazilian. */
  lemma KeepBrazilianExact(ls: seq<Listing>, p: Proxy)
    ensures KeepBrazilian(ls) == Select(FromListings(ls), Marks(FromListings(ls), IsBrazilian))
    ensures p in KeepBrazilian(ls) <==> p in FromListings(ls) && IsBrazilian(p)
    ensures IsSubsequence(KeepBrazilian(ls), FromListings(ls))
  {
    FilterMembership(FromListings(ls), IsBrazilian, p);
    FilterIsSubsequence(FromListings(ls), IsBrazilian);
  }

  /** `Math.min(10, proxies.length)`. */
  function SampleSize(n: nat): (r: nat)
    ensures r <= n && r <= MaxProbed
    ensures r == n || r == MaxProbed
  {
    if n < MaxProbed then n else MaxProbed
  }

  /** bot.js:94-111. The first `SampleSize` entries are probed, `probes[i]`
      being the verdict on entry `i`. If some probe passed, the pool becomes
      the passing entries followed by the entries that were not probed;
      if none passed, the pool is kept whole. */
  function MergeProbed(kept: seq<Proxy>, probes: seq<bool>): (r: seq<Proxy>)
    requires |probes| == SampleSize(|kept|)
    ensures |r| <= |kept|
    ensures forall i :: 0 <= i < |r| ==> r[i] in kept
  {
    var s := SampleSize(|kept|);
    var valid := Select(kept[..s], probes);
    if |valid| > 0 then valid + kept[s..] else kept
  }

  /** Probing never removes an entry that was not probed, never adds one,
      never reorders, and never empties a non-empty pool. */
  lemma MergeShape(kept: seq<Proxy>, probes: seq<bool>)
    requires |probes| == SampleSize(|kept|)
    ensures var r := MergeProbed(kept, probes);
      var s := SampleSize(|kept|);
      |r| >= |kept| - s && r[|r| - (|kept| - s)..] == kept[s..]
    ensures |kept| > 0 ==> |MergeProbed(kept, probes)| > 0
    ensures IsSubsequence(MergeProbed(kept, probes), kept)
  {
    var s := SampleSize(|kept|);
    if |Select(kept[..s], probes)| > 0 {
      MergeSelects(kept, probes);
    } else {
      SelectOnes(kept);
      assert Select(kept, Ones(|kept|)) == MergeProbed(kept, probes);
    }
  }

  /** When some probe passed, the merge selects the passing probed entries
      and every unprobed one. */
  lemma MergeSelects(kept: seq<Proxy>, probes: seq<bool>)
    requires |probes| == SampleSize(|kept|)
    requires |Select(kept[..SampleSize(|kept|)], probes)| > 0
    ensures MergeProbed(kept, probes) == Select(kept, probes + Ones(|kept| - SampleSize(|kept|)))
  {
    var s := SampleSize(|kept|);
    SelectOnes(kept[s..]);
    SelectAppend(kept[..s], kept[s..], probes, Ones(|kept| - s));
    SplitKept(kept, s);
  }

  lemma SplitKept(kept: seq<Proxy>, s: nat)
    requires s <= |kept|
    ensures kept[..s] + kept[s..] == kept
  {
  }

  /** A probed entry whose probe passed survives. */
  lemma MergeKeepsPassing(kept: seq<Proxy>, probes: seq<bool>, i: nat)
    requires |probes| == SampleSize(|kept|)
    requires i < |probes| && probes[i]
    ensures kept[i] in MergeProbed(kept, probes)
  {
    var s := SampleSize(|kept|);
    SelectKeepsMarked(kept[..s], probes, i);
  }

  lemma {:induction false} SelectKeepsMarked<T>(xs: seq<T>, mask: seq<bool>, i: nat)
    requires |mask| == |xs| && i < |xs| && mask[i]
    ensures xs[i] in Select(xs, mask)
  {
    if i > 0 {
      SelectKeepsMarked(xs[1..], mask[1..], i - 1);
    }
  }

  /** Once some probe passed, a probed entry whose probe failed is dropped
      (provided it is not listed a second time). */
  lemma MergeDropsFailing(kept: seq<Proxy>, probes: seq<bool>, i: nat)
    requires |probes| == SampleSize(|kept|)
    requires exists j :: 0 <= j < |probes| && probes[j]
    requires i < |probes| && !probes[i]
    requires forall j :: 0 <= j < |kept| && j != i ==> kept[j] != kept[i]
    ensures kept[i] !in MergeProbed(kept, probes)
  {
    var s := SampleSize(|kept|);
    var j :| 0 <= j < |probes| && probes[j];
    SelectKeepsMarked(kept[..s], probes, j);
    SelectAvoids(kept[..s], probes, kept[i]);
    assert kept[i] !in kept[s..];
  }

  lemma {:induction false} SelectAvoids<T>(xs: seq<T>, mask: seq<bool>, x: T)
    requires |mask| == |xs|
    requires forall j :: 0 <= j < |xs| && xs[j] == x ==> !mask[j]
    ensures x !in Select(xs, mask)
  {
    if xs != [] {
      SelectAvoids(xs[1..], mask[1..], x);
    }
  }

  /** When no probe passed, nothing is dropped; when all passed, nothing is
      dropped either. */
  lemma MergeUnanimous(kept: seq<Proxy>, probes: seq<bool>)
    requires |probes| == SampleSize(|kept|)
    requires (forall i :: 0 <= i < |probes| ==> !probes[i]) || (forall i :: 0 <= i < |probes| ==> probes[i])
    ensures MergeProbed(kept, probes) == kept
  {
    var s := SampleSize(|kept|);
    if forall i :: 0 <= i < |probes| ==> !probes[i] {
      SelectNone(kept[..s], probes);
    } else {
      assert probes == Ones(s);
      SelectOnes(kept[..s]);
      assert kept[..s] + kept[s..] == kept;
    }
  }

  /** What the provider's listing endpoint gave: nothing usable (no API key,
      both the filtered and the unfiltered request rejected, or a reply
      without `results`) or the listing of one page. */
  datatype Fetch = Unavailable | Fetched(results: seq<Listing>)

  /** The pool after one refresh from `pool`. A refresh that gets no
      listing, or an empty one, leaves the pool alone. Otherwise the pool is
      replaced by its Brazilian entries, which may be none at all; a
      non-empty Brazilian pool is then narrowed by the probe verdicts. The
      rotation cursor is not touched. */
  function Refresh(pool: seq<Proxy>, fetch: Fetch, probes: seq<bool>): (r: seq<Proxy>)
    requires fetch.Fetched? ==> |probes| == SampleSize(|KeepBrazilian(fetch.results)|)
    ensures fetch.Unavailable? || fetch.results == [] ==> r == pool
    ensures fetch.Fetched? && fetch.results != [] ==> forall i :: 0 <= i < |r| ==> IsBrazilian(r[i])
  {
    match fetch
    case Unavailable => pool
    case Fetched(results) =>
      if results == [] then pool
      else
        var kept := KeepBrazilian(results);
        if |kept| == 0 then [] else MergeProbed(kept, probes)
  }

  /** A refresh that gets a non-empty listing makes the pool an
      order-preserving selection of the listing's Brazilian entries, empty
      exactly when there are none; a listing with no Brazilian entry thus
      leaves the bot without proxies. */
  lemma RefreshReplaces(pool: seq<Proxy>, results: seq<Listing>, probes: seq<bool>)
    requires results != []
    requires |probes| == SampleSize(|KeepBrazilian(results)|)
    ensures IsSubsequence(Refresh(pool, Fetched(results), probes), KeepBrazilian(results))
    ensures Refresh(pool, Fetched(results), probes) == [] <==> KeepBrazilian(results) == []
    ensures forall p :: p in Refresh(pool, Fetched(results), probes) ==>
      p in FromListings(results) && IsBrazilian(p)
  {
    var kept := KeepBrazilian(results);
    var r := Refresh(pool, Fetched(results), probes);
    assert r == (if |kept| == 0 then [] else MergeProbed(kept, probes));
    if kept == [] {
      assert Select(kept, []) == r;
    } else {
      MergeShape(kept, probes);
    }
    forall p | p in r
      ensures p in FromListings(results) && IsBrazilian(p)
    {
      assert p in kept;
      KeepBrazilianExact(results, p);
    }
  }
}
