/**
 * The report part of `generate_output`: walk the BRL map in its iteration
 * order, keep the sets that also have a USD record, compute the price ratio
 * rounded to hundredths, build a CSV row and a template item per kept set,
 * and sort both lists by ratio with Python's stable sort.
 */
module Reporter {
  import opened Wrappers
  import opened Dicts
  import opened Decimals
  import opened Sorting
  import opened Brickset

  /** `(set, usp.name, usp.price, bsp.price, ratio, bsp.url)`; prices in cents, ratio in hundredths. */
  datatype CsvRow = CsvRow(setNumber: string, name: string, usd: nat, brl: nat, ratio: nat, url: string)

  /** `dict(name=usp.name, usd=usp.price, brl=bsp.price, ratio=ratio, brl_url=bsp.url)` */
  datatype Item = Item(name: string, usd: nat, brl: nat, ratio: nat, brlUrl: string)

  /** Dividing by a USD price of zero raises (DivisionByZero, or InvalidOperation for 0 / 0) and aborts the report. */
  datatype ReportError = ZeroUsdPrice(setNumber: string)

  /** The template item carrying the same data as a CSV row. */
  function ToItem(r: CsvRow): Item {
    Item(r.name, r.usd, r.brl, r.ratio, r.url)
  }

  function SetOf(r: CsvRow): string { r.setNumber }
  function CsvRatio(r: CsvRow): int { r.ratio }
  function ItemRatio(i: Item): int { i.ratio }

  /** The row for set k: name and USD price from the USD record, BRL price and URL from the BRL record. */
  function MakeRow(k: string, b: SetPrice, u: SetPrice): CsvRow
    requires u.price > 0
  {
    CsvRow(k, u.name, u.price, b.price, Ratio(b.price, u.price), b.url)
  }

  /** The keys, in order, that also have a USD record. */
  function Matched(keys: seq<string>, usd: Dict<SetPrice>): seq<string>
    decreases |keys|
  {
    if keys == [] then []
    else Matched(keys[..|keys| - 1], usd) + if keys[|keys| - 1] in usd.entries then [keys[|keys| - 1]] else []
  }

  /** The loop of brickbr.py:89-97 over the first keys of the BRL map. */
  function JoinKeys(keys: seq<string>, brl: Dict<SetPrice>, usd: Dict<SetPrice>): Result<seq<CsvRow>, ReportError>
    requires forall k :: k in keys ==> k in brl.entries
    decreases |keys|
  {
    if keys == [] then Success([])
    else
      match JoinKeys(keys[..|keys| - 1], brl, usd)
      case Failure(e) => Failure(e)
      case Success(rows) =>
        var k := keys[|keys| - 1];
        match Get(usd, k)
        case None => Success(rows)
        case Some(u) =>
          if u.price == 0 then Failure(ZeroUsdPrice(k))
          else Success(rows + [MakeRow(k, brl.entries[k], u)])
  }

  /** The unsorted CSV rows, in BRL iteration order. */
  function Join(brl: Dict<SetPrice>, usd: Dict<SetPrice>): Result<seq<CsvRow>, ReportError> {
    JoinKeys(brl.order, brl, usd)
  }

  /** Both outputs: the CSV rows and the template items, each sorted by ratio. */
  function Report(brl: Dict<SetPrice>, usd: Dict<SetPrice>): Result<(seq<CsvRow>, seq<Item>), ReportError> {
    match Join(brl, usd)
    case Failure(e) => Failure(e)
    case Success(rows) => Success((SortBy(rows, CsvRatio), SortBy(MapSeq(ToItem, rows), ItemRatio)))
  }

  /** An error on an earlier key ends the join with that error. */
  lemma {:induction false} JoinFailureSticks(keys: seq<string>, n: nat, brl: Dict<SetPrice>, usd: Dict<SetPrice>)
    requires n <= |keys|
    requires forall k :: k in keys ==> k in brl.entries
    requires JoinKeys(keys[..n], brl, usd).Failure?
    ensures JoinKeys(keys, brl, usd) == JoinKeys(keys[..n], brl, usd)
    decreases |keys| - n
  {
    if n == |keys| {
      assert keys[..n] == keys;
    } else {
      var init := keys[..|keys| - 1];
      assert init[..n] == keys[..n];
      JoinFailureSticks(init, n, brl, usd);
    }
  }

  /**
   * Each joined row belongs to a set that has both records, a positive USD
   * price, and carries exactly the data taken from those two records; the
   * rows' sets are the keys, in order, that have a USD record.
   */
  lemma {:induction false} JoinKeysRows(keys: seq<string>, brl: Dict<SetPrice>, usd: Dict<SetPrice>)
    requires forall k :: k in keys ==> k in brl.entries
    requires JoinKeys(keys, brl, usd).Success?
    ensures MapSeq(SetOf, JoinKeys(keys, brl, usd).value) == Matched(keys, usd)
    ensures forall r :: r in JoinKeys(keys, brl, usd).value ==>
      && r.setNumber in brl.entries && r.setNumber in usd.entries
      && usd.entries[r.setNumber].price > 0
      && r == MakeRow(r.setNumber, brl.entries[r.setNumber], usd.entries[r.setNumber])
    decreases |keys|
  {
    if keys != [] {
      var init := keys[..|keys| - 1];
      JoinKeysRows(init, brl, usd);
      var rows := JoinKeys(init, brl, usd).value;
      var k := keys[|keys| - 1];
      if k in usd.entries {
        var row := MakeRow(k, brl.entries[k], usd.entries[k]);
        assert (rows + [row])[..|rows|] == rows;
      }
    }
  }

  /** A key is matched exactly when it is one of the keys and has a USD record. */
  lemma {:induction false} MatchedMembers(keys: seq<string>, usd: Dict<SetPrice>, s: string)
    ensures s in Matched(keys, usd) <==> s in keys && s in usd.entries
    decreases |keys|
  {
    if keys != [] {
      var init := keys[..|keys| - 1];
      MatchedMembers(init, usd, s);
      assert keys == init + [keys[|keys| - 1]];
    }
  }

  /**
   * The join fails exactly when some set of the BRL map has a USD record
   * priced at zero, and the error names such a set.
   */
  lemma {:induction false} JoinKeysFailure(keys: seq<string>, brl: Dict<SetPrice>, usd: Dict<SetPrice>)
    requires forall k :: k in keys ==> k in brl.entries
    ensures JoinKeys(keys, brl, usd).Failure?
      <==> exists k :: k in keys && k in usd.entries && usd.entries[k].price == 0
    ensures JoinKeys(keys, brl, usd).Failure? ==>
      var s := JoinKeys(keys, brl, usd).error.setNumber;
      s in keys && s in usd.entries && usd.entries[s].price == 0
    decreases |keys|
  {
    if keys != [] {
      var init, k := keys[..|keys| - 1], keys[|keys| - 1];
      JoinKeysFailure(init, brl, usd);
      JoinKeysFailureStep(keys, brl, usd);
      assert keys == init + [k];
      if !JoinKeys(keys, brl, usd).Failure? {
        forall j | j in keys && j in usd.entries ensures usd.entries[j].price != 0 {
          if j != k {
            assert j in init;
          }
        }
      }
    }
  }

  /** One more key fails the join when the shorter join failed, or when that key's USD price is zero. */
  lemma JoinKeysFailureStep(keys: seq<string>, brl: Dict<SetPrice>, usd: Dict<SetPrice>)
    requires keys != []
    requires forall k :: k in keys ==> k in brl.entries
    ensures var init, k := keys[..|keys| - 1], keys[|keys| - 1];
      && (JoinKeys(keys, brl, usd).Failure? <==>
            JoinKeys(init, brl, usd).Failure? || (k in usd.entries && usd.entries[k].price == 0))
      && (JoinKeys(keys, brl, usd).Failure? ==>
            JoinKeys(keys, brl, usd).error
              == if JoinKeys(init, brl, usd).Failure? then JoinKeys(init, brl, usd).error else ZeroUsdPrice(k))
  {
  }

  /**
   * Inner join: a row is emitted for set s exactly when s is a key of both
   * maps, one row per such set; sets only in the USD map are never visited.
   * The report fails exactly when such a set has a USD price of zero.
   */
  lemma JoinIsInnerJoin(brl: Dict<SetPrice>, usd: Dict<SetPrice>)
    ensures Join(brl, usd).Failure?
      <==> exists k :: k in brl.entries && k in usd.entries && usd.entries[k].price == 0
    ensures Join(brl, usd).Success? ==>
      var sets := MapSeq(SetOf, Join(brl, usd).value);
      && (forall s :: s in sets <==> s in brl.entries && s in usd.entries)
      && (forall p, q :: 0 <= p < q < |sets| ==> sets[p] != sets[q])
  {
    JoinKeysFailure(brl.order, brl, usd);
    if Join(brl, usd).Success? {
      var rows := Join(brl, usd).value;
      JoinKeysRows(brl.order, brl, usd);
      forall s ensures s in MapSeq(SetOf, rows) <==> s in brl.entries && s in usd.entries {
        MatchedMembers(brl.order, usd, s);
      }
      assert brl.order[..|brl.order|] == brl.order;
      JoinFollowsBrlOrder(brl, usd, |brl.order|);
    }
  }

  /** A key's position in the iteration order is where it sits. */
  lemma IndexOfAt(brl: Dict<SetPrice>, m: nat)
    requires m < |brl.order|
    ensures IndexOf(brl, brl.order[m]) == m
  {
  }

  /**
   * The joined rows come in BRL iteration order: their sets' positions in
   * the BRL map strictly increase.
   */
  lemma {:induction false} JoinFollowsBrlOrder(brl: Dict<SetPrice>, usd: Dict<SetPrice>, n: nat)
    requires n <= |brl.order|
    requires JoinKeys(brl.order[..n], brl, usd).Success?
    ensures var rows := JoinKeys(brl.order[..n], brl, usd).value;
      && (forall p :: 0 <= p < |rows| ==> rows[p].setNumber in brl.entries && IndexOf(brl, rows[p].setNumber) < n)
      && (forall p, q :: 0 <= p < q < |rows| ==> IndexOf(brl, rows[p].setNumber) < IndexOf(brl, rows[q].setNumber))
    decreases n
  {
    if n > 0 {
      var keys := brl.order[..n];
      var init := keys[..n - 1];
      assert init == brl.order[..n - 1];
      JoinFollowsBrlOrder(brl, usd, n - 1);
      IndexOfAt(brl, n - 1);
    }
  }

  /**
   * Both outputs are sorted by ratio and are permutations of the joined
   * rows; they have the same length and correspond element-wise (the
   * template item at i carries the CSV row at i); and the sort is stable:
   * the rows sharing a ratio appear in the order the join produced them.
   */
  lemma ReportSortedPermutation(brl: Dict<SetPrice>, usd: Dict<SetPrice>)
    requires Report(brl, usd).Success?
    ensures var rows, csv, items := Join(brl, usd).value, Report(brl, usd).value.0, Report(brl, usd).value.1;
      && SortedBy(csv, CsvRatio) && multiset(csv) == multiset(rows)
      && SortedBy(items, ItemRatio) && multiset(items) == multiset(MapSeq(ToItem, rows))
      && |items| == |csv| && (forall i :: 0 <= i < |csv| ==> items[i] == ToItem(csv[i]))
      && (forall v :: WithKey(csv, CsvRatio, v) == WithKey(rows, CsvRatio, v))
  {
    var rows := Join(brl, usd).value;
    SortByMap(rows, ToItem, CsvRatio, ItemRatio);
    forall v ensures WithKey(SortBy(rows, CsvRatio), CsvRatio, v) == WithKey(rows, CsvRatio, v) {
      SortByStable(rows, CsvRatio, v);
    }
  }

  /**
   * The CSV output is the only list sorted by ratio that lists the rows of
   * each ratio in join order: what any stable sort by ratio returns.
   */
  lemma ReportIsStableSort(brl: Dict<SetPrice>, usd: Dict<SetPrice>, other: seq<CsvRow>)
    requires Report(brl, usd).Success?
    requires SortedBy(other, CsvRatio)
    requires forall v :: WithKey(other, CsvRatio, v) == WithKey(Join(brl, usd).value, CsvRatio, v)
    ensures other == Report(brl, usd).value.0
  {
    ReportSortedPermutation(brl, usd);
    StableSortUnique(other, Report(brl, usd).value.0, CsvRatio);
  }

  /**
   * Every reported row is the pair of records of a set present in both
   * maps: name and USD price from the USD record, BRL price and URL from the
   * BRL record, and a ratio equal to BRL / USD rounded half-even to 0.01.
   */
  lemma ReportRowsFromRecords(brl: Dict<SetPrice>, usd: Dict<SetPrice>)
    requires Report(brl, usd).Success?
    ensures forall r :: r in Report(brl, usd).value.0 ==>
      && r.setNumber in brl.entries && r.setNumber in usd.entries
      && r.name == usd.entries[r.setNumber].name && r.url == brl.entries[r.setNumber].url
      && r.usd == usd.entries[r.setNumber].price && r.brl == brl.entries[r.setNumber].price
      && r.usd > 0
      && 2 * Dist(100 * r.brl, r.ratio * r.usd) <= r.usd
      && (2 * Dist(100 * r.brl, r.ratio * r.usd) == r.usd ==> r.ratio % 2 == 0)
  {
    var rows := Join(brl, usd).value;
    JoinKeysRows(brl.order, brl, usd);
    var csv := Report(brl, usd).value.0;
    forall r | r in csv ensures r in rows {
      assert r in multiset(csv);
    }
  }

  /**
   * Ties: two reported rows with the same ratio appear in the order their
   * sets have in the BRL map.
   */
  lemma ReportTiesInBrlOrder(brl: Dict<SetPrice>, usd: Dict<SetPrice>, i: nat, j: nat)
    requires Report(brl, usd).Success?
    requires i < j < |Report(brl, usd).value.0|
    requires Report(brl, usd).value.0[i].ratio == Report(brl, usd).value.0[j].ratio
    ensures var csv := Report(brl, usd).value.0;
      && csv[i].setNumber in brl.entries && csv[j].setNumber in brl.entries
      && IndexOf(brl, csv[i].setNumber) < IndexOf(brl, csv[j].setNumber)
  {
    var rows := Join(brl, usd).value;
    var csv := Report(brl, usd).value.0;
    var v := csv[i].ratio;
    WithKeyKeepsOrder(csv, CsvRatio, v, i, j);
    var w := WithKey(csv, CsvRatio, v);
    var p, q :| 0 <= p < q < |w| && w[p] == csv[i] && w[q] == csv[j];
    SortByStable(rows, CsvRatio, v);
    WithKeyFromInOrder(rows, CsvRatio, v, p, q);
    var i', j' :| 0 <= i' < j' < |rows| && rows[i'] == w[p] && rows[j'] == w[q];
    assert brl.order[..|brl.order|] == brl.order;
    JoinFollowsBrlOrder(brl, usd, |brl.order|);
  }

  /** A single joined row is reported as it is, in both outputs. */
  lemma ReportOneRow(brl: Dict<SetPrice>, usd: Dict<SetPrice>, row: CsvRow)
    requires Join(brl, usd) == Success([row])
    ensures Report(brl, usd) == Success(([row], [ToItem(row)]))
  {
    assert [row][..0] == [] && [ToItem(row)][..0] == [];
    assert MapSeq(ToItem, [row]) == [ToItem(row)];
  }

  /**
   * A BRL map holding sets 75192 (R$ 799.99) and 10497, and a USD map
   * holding 75192 (US$ 169.99), report one row, for 75192, with ratio 4.71.
   */
  lemma ReportExample(b: SetPrice, u: SetPrice, other: SetPrice)
    requires b.price == 79999 && u.price == 16999
    ensures var brl := Insert(Insert(Empty(), "75192", b), "10497", other);
      var usd := Insert(Empty(), "75192", u);
      Report(brl, usd) == Success(([CsvRow("75192", u.name, 16999, 79999, 471, b.url)],
                                   [Item(u.name, 16999, 79999, 471, b.url)]))
  {
    var brl := Insert(Insert(Empty(), "75192", b), "10497", other);
    var usd := Insert(Empty(), "75192", u);
    var row := CsvRow("75192", u.name, 16999, 79999, 471, b.url);
    JoinExample(brl, usd, b, u);
    ReportOneRow(brl, usd, row);
  }

  lemma JoinExample(brl: Dict<SetPrice>, usd: Dict<SetPrice>, b: SetPrice, u: SetPrice)
    requires b.price == 79999 && u.price == 16999
    requires brl.order == ["75192", "10497"] && brl.entries["75192"] == b
    requires Get(usd, "75192") == Some(u) && Get(usd, "10497") == None
    ensures Join(brl, usd) == Success([CsvRow("75192", u.name, 16999, 79999, 471, b.url)])
  {
    RatioExamples();
    var row := CsvRow("75192", u.name, 16999, 79999, 471, b.url);
    var keys := brl.order;
    assert keys[..1] == ["75192"] && keys[..1][..0] == [];
    assert JoinKeys(keys[..1][..0], brl, usd) == Success([]);
    assert MakeRow("75192", b, u) == row;
    assert keys[..1][|keys[..1]| - 1] == "75192" && [] + [row] == [row];
    assert JoinKeys(keys[..1], brl, usd) == Success([row]);
  }

  /** brickbr.py:87-97: the join loop appending to both lists. */
  method JoinLists(brl: Dict<SetPrice>, usd: Dict<SetPrice>) returns (r: Result<(seq<CsvRow>, seq<Item>), ReportError>)
    ensures Join(brl, usd).Failure? ==> r == Failure(Join(brl, usd).error)
    ensures Join(brl, usd).Success? ==> r == Success((Join(brl, usd).value, MapSeq(ToItem, Join(brl, usd).value)))
  {
    var csvLst: seq<CsvRow> := [];
    var itemLst: seq<Item> := [];
    var i := 0;
    while i < |brl.order|
      invariant 0 <= i <= |brl.order|
      invariant JoinKeys(brl.order[..i], brl, usd) == Success(csvLst)
      invariant itemLst == MapSeq(ToItem, csvLst)
    {
      assert brl.order[..i + 1][..i] == brl.order[..i];
      var k := brl.order[i];
      var b := brl.entries[k];
      var found := Get(usd, k);
      if found.Some? {
        var u := found.value;
        if u.price == 0 {
          JoinFailureSticks(brl.order, i + 1, brl, usd);
          return Failure(ZeroUsdPrice(k));
        }
        var ratio := Ratio(b.price, u.price);
        csvLst := csvLst + [CsvRow(k, u.name, u.price, b.price, ratio, b.url)];
        itemLst := itemLst + [Item(u.name, u.price, b.price, ratio, b.url)];
      }
      i := i + 1;
    }
    assert brl.order[..i] == brl.order;
    r := Success((csvLst, itemLst));
  }

  /** brickbr.py:99-100: `csv_lst.sort(key=lambda x: x[4])` and `json_lst.sort(key=lambda x: x['ratio'])`. */
  method SortLists(csvLst: seq<CsvRow>, itemLst: seq<Item>) returns (csvSorted: seq<CsvRow>, itemSorted: seq<Item>)
    ensures csvSorted == SortBy(csvLst, CsvRatio)
    ensures itemSorted == SortBy(itemLst, ItemRatio)
  {
    var csvArr := new CsvRow[|csvLst|](j requires 0 <= j < |csvLst| => csvLst[j]);
    var itemArr := new Item[|itemLst|](j requires 0 <= j < |itemLst| => itemLst[j]);
    assert csvArr[..] == csvLst && itemArr[..] == itemLst;
    SortInPlace(csvArr, CsvRatio);
    SortInPlace(itemArr, ItemRatio);
    csvSorted, itemSorted := csvArr[..], itemArr[..];
  }

  /** `generate_output` between loading the two snapshots and writing the two files. */
  method GenerateOutput(brl: Dict<SetPrice>, usd: Dict<SetPrice>) returns (r: Result<(seq<CsvRow>, seq<Item>), ReportError>)
    ensures r == Report(brl, usd)
  {
    var joined := JoinLists(brl, usd);
    match joined {
      case Failure(e) =>
        r := Failure(e);
      case Success(lists) =>
        var csvSorted, itemSorted := SortLists(lists.0, lists.1);
        r := Success((csvSorted, itemSorted));
    }
  }
}
