/**
 * The price record and what the scraper derives from a Brickset set page:
 * the lookup URL built from a set number, and the choice of the US-dollar
 * alternative among the RRP's currency-tagged alternatives.
 */
module Brickset {
  import opened Wrappers
  import opened Strings

  /** `SetPrice(set, price, name, date, url)`; the price is a whole number of cents. */
  datatype SetPrice = SetPrice(setNumber: string, price: nat, name: string, date: string, url: string)

  const UrlPrefix: string := "https://brickset.com/sets/"
  const UrlSuffix: string := "-1/"

  /** `f'https://brickset.com/sets/{set}-1/'` */
  function SetUrl(number: string): (url: string)
    ensures |url| == |UrlPrefix| + |number| + |UrlSuffix|
    ensures url[..|UrlPrefix|] == UrlPrefix
    ensures url[|UrlPrefix|..|url| - |UrlSuffix|] == number
    ensures url[|url| - |UrlSuffix|..] == UrlSuffix
  {
    UrlPrefix + number + UrlSuffix
  }

  /** The set number a Brickset set URL was built from, if it has that shape. */
  function SetOfUrl(url: string): (number: Option<string>)
  {
    if |url| >= |UrlPrefix| + |UrlSuffix|
       && url[..|UrlPrefix|] == UrlPrefix
       && url[|url| - |UrlSuffix|..] == UrlSuffix
    then Some(url[|UrlPrefix|..|url| - |UrlSuffix|])
    else None
  }

  /** SetOfUrl inverts SetUrl, and only URLs SetUrl builds have a set number. */
  lemma SetUrlRoundTrip(number: string, url: string)
    ensures SetOfUrl(SetUrl(number)) == Some(number)
    ensures SetOfUrl(url) == Some(number) ==> SetUrl(number) == url
  {
    if SetOfUrl(url) == Some(number) {
      assert url == url[..|UrlPrefix|] + url[|UrlPrefix|..|url| - |UrlSuffix|] + url[|url| - |UrlSuffix|..];
    }
  }

  /** Distinct sets are looked up at distinct URLs. */
  lemma SetUrlInjective(a: string, b: string)
    requires SetUrl(a) == SetUrl(b)
    ensures a == b
  {
    SetUrlRoundTrip(a, SetUrl(a));
    SetUrlRoundTrip(b, SetUrl(b));
  }

  const AltSeparator: string := " / "

  /** `[currency_str for currency_str in parts if '$' in currency_str]` */
  function DollarParts(parts: seq<string>): (r: seq<string>)
    ensures forall p :: p in r ==> p in parts && '$' in p
  {
    if parts == [] then []
    else if '$' in parts[0] then [parts[0]] + DollarParts(parts[1..])
    else DollarParts(parts[1..])
  }

  /** The first element of DollarParts is the first part that contains '$'. */
  lemma {:induction false} DollarPartsFirst(parts: seq<string>)
    ensures DollarParts(parts) == [] <==> forall p :: p in parts ==> '$' !in p
    ensures DollarParts(parts) != [] ==>
      exists k :: 0 <= k < |parts| && parts[k] == DollarParts(parts)[0] && '$' in parts[k]
        && forall j :: 0 <= j < k ==> '$' !in parts[j]
  {
    if parts != [] {
      DollarPartsFirst(parts[1..]);
      if '$' !in parts[0] && DollarParts(parts) != [] {
        var k :| 0 <= k < |parts[1..]| && parts[1..][k] == DollarParts(parts[1..])[0] && '$' in parts[1..][k]
          && forall j :: 0 <= j < k ==> '$' !in parts[1..][j];
        assert parts[k + 1] == DollarParts(parts)[0];
        assert forall j :: 0 <= j < k + 1 ==> '$' !in parts[j] by {
          forall j | 0 <= j < k + 1 ensures '$' !in parts[j] {
            if j > 0 { assert parts[j] == parts[1..][j - 1]; }
          }
        }
      }
    }
  }

  /** `usd_str[0]` of the RRP text split on ' / ', or None when `usd_str` is empty. */
  function SelectUsd(rrp: string): (r: Option<string>)
  {
    var dollars := DollarParts(Split(rrp, AltSeparator));
    if dollars == [] then None else Some(dollars[0])
  }

  /**
   * The chosen alternative is the first ' / '-separated piece of the RRP text
   * that contains '$'; there is none exactly when no piece contains '$'. The
   * piece itself never contains the separator.
   */
  lemma SelectUsdIsFirstDollarPiece(rrp: string)
    ensures var parts := Split(rrp, AltSeparator);
      && (SelectUsd(rrp).None? <==> forall p :: p in parts ==> '$' !in p)
      && (SelectUsd(rrp).Some? ==>
            && '$' in SelectUsd(rrp).value
            && !Contains(SelectUsd(rrp).value, AltSeparator)
            && exists k :: 0 <= k < |parts| && parts[k] == SelectUsd(rrp).value
                 && forall j :: 0 <= j < k ==> '$' !in parts[j])
  {
    DollarPartsFirst(Split(rrp, AltSeparator));
  }

  /** What the Brickset page yields once fetched: the RRP `dd` text, if that tag exists, and the title. */
  datatype SetPage = SetPage(rrp: Option<string>, name: string, observedAt: string)

  /**
   * The tail of `get_brickset_price` after scraping: no record without an RRP
   * tag or without a dollar alternative; otherwise a record keyed by the set
   * number asked for, priced by the chosen alternative, carrying the URL.
   */
  function PageRecord(page: SetPage, setNumber: string, url: string, amount: string -> nat): (r: Option<SetPrice>)
    ensures r.Some? <==> page.rrp.Some? && SelectUsd(page.rrp.value).Some?
    ensures r.Some? ==> r.value.setNumber == setNumber && r.value.url == url && r.value.name == page.name
    ensures r.Some? ==> r.value.date == page.observedAt
    ensures r.Some? ==> r.value.price == amount(SelectUsd(page.rrp.value).value)
  {
    match page.rrp
    case None => None
    case Some(text) =>
      match SelectUsd(text)
      case None => None
      case Some(usd) => Some(SetPrice(setNumber, amount(usd), page.name, page.observedAt, url))
  }
}
