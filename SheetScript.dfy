/** The row upsert of the spreadsheet script's doPost handler: find the first
    data row whose trimmed id cell equals the gift's trimmed id, overwrite it
    or append a new row; a delete is a save with isDeleted forced to true. */
module SheetScript {
  import opened Gifts
  import Text

  /** A cell value as the spreadsheet returns it. */
  datatype Cell = Str(s: string) | Number(n: real) | Flag(b: bool)

  type Row = seq<Cell>

  /** The 19 columns A to S. */
  const Headers: seq<string> := [
    "id", "title", "source", "cost", "recipient", "isReceived", "payer", "isSplit", "isReturned",
    "occasion", "year", "createdAt", "imageUrl", "productUrl", "trackingUrl", "isRepaid",
    "isExcluded", "isDeleted", "orderDetailUrl"]

  /** The header names as cells. */
  function HeaderCells(hs: seq<string>): (r: Row)
    ensures |r| == |hs| && forall i :: 0 <= i < |hs| ==> r[i] == Str(hs[i])
  {
    if hs == [] then [] else [Str(hs[0])] + HeaderCells(hs[1..])
  }

  const HeaderRow: Row := HeaderCells(Headers)

  /** `gift[h] !== undefined ? gift[h] : ""`: the cell written for the field
      named h; a missing createdAt and an unknown name give the empty string. */
  function Field(g: Gift, h: string): Cell {
    match h
    case "id" => Str(g.id)
    case "title" => Str(g.title)
    case "source" => Str(g.source)
    case "cost" => Number(g.cost)
    case "recipient" => Str(RecipientName(g.recipient))
    case "isReceived" => Flag(g.isReceived)
    case "payer" => Str(PayerName(g.payer))
    case "isSplit" => Flag(g.isSplit)
    case "isReturned" => Flag(g.isReturned)
    case "occasion" => Str(OccasionName(g.occasion))
    case "year" => Number(g.year as real)
    case "createdAt" => (match g.createdAt case None => Str("") case Some(t) => Number(t as real))
    case "imageUrl" => Str(g.imageUrl)
    case "productUrl" => Str(g.productUrl)
    case "trackingUrl" => Str(g.trackingUrl)
    case "isRepaid" => Flag(g.isRepaid)
    case "isExcluded" => Flag(g.isExcluded)
    case "isDeleted" => Flag(g.isDeleted)
    case "orderDetailUrl" => Str(g.orderDetailUrl)
    case _ => Str("")
  }

  /** headers.map(h => ...), written out column by column. */
  function RowOf(g: Gift): (r: Row)
    ensures |r| == |Headers|
  {
    [Str(g.id), Str(g.title), Str(g.source), Number(g.cost), Str(RecipientName(g.recipient)),
     Flag(g.isReceived), Str(PayerName(g.payer)), Flag(g.isSplit), Flag(g.isReturned),
     Str(OccasionName(g.occasion)), Number(g.year as real),
     match g.createdAt case None => Str("") case Some(t) => Number(t as real),
     Str(g.imageUrl), Str(g.productUrl), Str(g.trackingUrl), Flag(g.isRepaid), Flag(g.isExcluded),
     Flag(g.isDeleted), Str(g.orderDetailUrl)]
  }

  /** Column i of a gift's row holds the field the i-th header names. */
  lemma RowOfFields(g: Gift)
    ensures forall i :: 0 <= i < |Headers| ==> RowOf(g)[i] == Field(g, Headers[i])
  {
    forall i | 0 <= i < |Headers|
      ensures RowOf(g)[i] == Field(g, Headers[i])
    {
      if i < 5 {
        ColumnsFrom0(g, i);
      } else if i < 10 {
        ColumnsFrom5(g, i);
      } else if i < 15 {
        ColumnsFrom10(g, i);
      } else {
        ColumnsFrom15(g, i);
      }
    }
  }

  /** RowOfFields for columns 0 to 4. */
  lemma ColumnsFrom0(g: Gift, i: int)
    requires 0 <= i < 5
    ensures RowOf(g)[i] == Field(g, Headers[i])
  {
    var r := RowOf(g);
    if i == 0 {
      assert r[0] == Field(g, "id");
    } else if i == 1 {
      assert r[1] == Field(g, "title");
    } else if i == 2 {
      assert r[2] == Field(g, "source");
    } else if i == 3 {
      assert r[3] == Field(g, "cost");
    } else {
      assert r[4] == Field(g, "recipient");
    }
  }

  /** RowOfFields for columns 5 to 9. */
  lemma ColumnsFrom5(g: Gift, i: int)
    requires 5 <= i < 10
    ensures RowOf(g)[i] == Field(g, Headers[i])
  {
    var r := RowOf(g);
    if i == 5 {
      assert r[5] == Field(g, "isReceived");
    } else if i == 6 {
      assert r[6] == Field(g, "payer");
    } else if i == 7 {
      assert r[7] == Field(g, "isSplit");
    } else if i == 8 {
      assert r[8] == Field(g, "isReturned");
    } else {
      assert r[9] == Field(g, "occasion");
    }
  }

  /** RowOfFields for columns 10 to 14. */
  lemma ColumnsFrom10(g: Gift, i: int)
    requires 10 <= i < 15
    ensures RowOf(g)[i] == Field(g, Headers[i])
  {
    var r := RowOf(g);
    if i == 10 {
      assert r[10] == Field(g, "year");
    } else if i == 11 {
      assert r[11] == Field(g, "createdAt");
    } else if i == 12 {
      assert r[12] == Field(g, "imageUrl");
    } else if i == 13 {
      assert r[13] == Field(g, "productUrl");
    } else {
      assert r[14] == Field(g, "trackingUrl");
    }
  }

  /** RowOfFields for columns 15 to 18. */
  lemma ColumnsFrom15(g: Gift, i: int)
    requires 15 <= i < 19
    ensures RowOf(g)[i] == Field(g, Headers[i])
  {
    var r := RowOf(g);
    if i == 15 {
      assert r[15] == Field(g, "isRepaid");
    } else if i == 16 {
      assert r[16] == Field(g, "isExcluded");
    } else if i == 17 {
      assert r[17] == Field(g, "isDeleted");
    } else {
      assert r[18] == Field(g, "orderDetailUrl");
    }
  }

  /** setValues on the first |values| cells of a row; cells to the right stay. */
  function Overwrite(row: Row, values: Row): (r: Row)
    ensures |r| >= |values| && r[..|values|] == values
    ensures forall i :: |values| <= i < |row| ==> i < |r| && r[i] == row[i]
  {
    values + (if |row| > |values| then row[|values|..] else [])
  }

  function DigitChar(d: int): char
    requires 0 <= d < 10
  {
    "0123456789"[d]
  }

  function NatText(n: nat): (r: string)
    ensures |r| > 0 && forall i :: 0 <= i < |r| ==> '0' <= r[i] <= '9'
  {
    if n < 10 then [DigitChar(n)] else NatText(n / 10) + [DigitChar(n % 10)]
  }

  /** The value of a decimal digit character; 0 for any other character. */
  function DigitValue(c: char): nat {
    if '0' <= c <= '9' then c as int - '0' as int else 0
  }

  /** The number a string of decimal digits denotes, read left to right. */
  function DigitsValue(s: string): nat {
    if s == [] then 0 else 10 * DigitsValue(s[..|s| - 1]) + DigitValue(s[|s| - 1])
  }

  /** A decimal numeral as toString() prints it: digits only, and no leading
      zero unless the numeral is "0" itself. */
  predicate Numeral(s: string) {
    && |s| > 0
    && (forall i :: 0 <= i < |s| ==> '0' <= s[i] <= '9')
    && (|s| > 1 ==> s[0] != '0')
  }

  lemma DigitCharValue(d: int)
    requires 0 <= d < 10
    ensures DigitValue(DigitChar(d)) == d
    ensures d > 0 ==> DigitChar(d) != '0'
  {
    var digits := "0123456789";
    assert digits[0] == '0' && digits[1] == '1' && digits[2] == '2' && digits[3] == '3' && digits[4] == '4';
    assert digits[5] == '5' && digits[6] == '6' && digits[7] == '7' && digits[8] == '8' && digits[9] == '9';
  }

  /** NatText(n) is the decimal numeral of n: it reads back as n and has no
      leading zero. */
  lemma {:induction false} NatTextValue(n: nat)
    ensures Numeral(NatText(n))
    ensures DigitsValue(NatText(n)) == n
  {
    if n < 10 {
      DigitCharValue(n);
      assert NatText(n)[..0] == [];
    } else {
      var t := NatText(n / 10);
      var d := DigitChar(n % 10);
      NatTextValue(n / 10);
      DigitCharValue(n % 10);
      assert NatText(n) == t + [d];
      assert (t + [d])[..|t|] == t;
      assert (t + [d])[0] == t[0];
    }
  }

  /** Different numbers print as different numerals. */
  lemma NatTextInjective(m: nat, n: nat)
    requires NatText(m) == NatText(n)
    ensures m == n
  {
    NatTextValue(m);
    NatTextValue(n);
  }

  /** cell.toString() for the values an id column can hold. Integral numbers
      below 10^21 print as plain decimals; other numbers are left out. */
  function IdText(c: Cell): Option<string> {
    match c
    case Str(s) => Some(s)
    case Flag(b) => Some(if b then "true" else "false")
    case Number(n) =>
      if n.Floor as real == n && -1000000000000000000000.0 < n < 1000000000000000000000.0 then
        Some(if n.Floor < 0 then "-" + NatText(-n.Floor) else NatText(n.Floor))
      else None
  }

  /** `data[i][0].toString().trim() === searchId` */
  predicate RowHasId(row: Row, searchId: string) {
    |row| > 0 && IdText(row[0]).Some? && Text.Trim(IdText(row[0]).value) == searchId
  }

  /** Which id cells have a text at all: every string and flag, and a number
      exactly when it is integral and below 10^21 in size; a number's text
      starts with a minus sign exactly when it is negative. */
  lemma IdTextMeaning(c: Cell)
    ensures c.Str? ==> IdText(c) == Some(c.s)
    ensures c.Flag? ==> IdText(c) == Some(if c.b then "true" else "false")
    ensures c.Number? ==>
      (IdText(c).Some? <==> c.n.Floor as real == c.n && -1000000000000000000000.0 < c.n < 1000000000000000000000.0)
    ensures c.Number? && IdText(c).Some? ==> |IdText(c).value| > 0 && (IdText(c).value[0] == '-' <==> c.n < 0.0)
    ensures c.Number? && IdText(c).Some? && c.n >= 0.0 ==>
      Numeral(IdText(c).value) && DigitsValue(IdText(c).value) as real == c.n
    ensures c.Number? && IdText(c).Some? && c.n < 0.0 ==>
      Numeral(IdText(c).value[1..]) && -(DigitsValue(IdText(c).value[1..]) as real) == c.n
  {
    if c.Number? && IdText(c).Some? {
      if c.n.Floor >= 0 {
        assert IdText(c).value == NatText(c.n.Floor);
        NatTextValue(c.n.Floor);
      } else {
        assert IdText(c).value[1..] == NatText(-c.n.Floor);
        NatTextValue(-c.n.Floor);
      }
    }
  }

  /** A row matches when its first cell's text, trimmed, is the id; an empty
      row or an id cell without a text never matches. */
  lemma RowHasIdMeaning(row: Row, searchId: string)
    ensures row == [] ==> !RowHasId(row, searchId)
    ensures |row| > 0 && row[0].Str? ==> (RowHasId(row, searchId) <==> Text.Trim(row[0].s) == searchId)
    ensures |row| > 0 && IdText(row[0]).None? ==> !RowHasId(row, searchId)
  {
  }

  /** Index of the first element of xs, from i on, satisfying p. */
  function FirstFrom<T>(xs: seq<T>, p: T -> bool, i: nat): (k: Option<nat>)
    decreases |xs| - i
    ensures k.Some? ==> i <= k.value < |xs| && p(xs[k.value]) && forall j :: i <= j < k.value ==> !p(xs[j])
    ensures k.None? ==> forall j :: i <= j < |xs| ==> !p(xs[j])
  {
    if i >= |xs| then None
    else if p(xs[i]) then Some(i)
    else FirstFrom(xs, p, i + 1)
  }

  /** An element satisfying p, preceded from i on only by elements that do
      not, is the first match from i. */
  lemma {:induction false} FirstAt<T>(xs: seq<T>, p: T -> bool, i: nat, k: nat)
    requires i <= k < |xs|
    requires forall j :: i <= j < k ==> !p(xs[j])
    requires p(xs[k])
    ensures FirstFrom(xs, p, i) == Some(k)
    decreases k - i
  {
    if i < k {
      FirstAt(xs, p, i + 1, k);
    }
  }

  /** Index of the first data row, from i on, with the id. */
  function FirstRowFrom(data: seq<Row>, searchId: string, i: nat): (k: Option<nat>)
    ensures k.Some? ==> i <= k.value < |data| && RowHasId(data[k.value], searchId)
                        && forall j :: i <= j < k.value ==> !RowHasId(data[j], searchId)
    ensures k.None? ==> forall j :: i <= j < |data| ==> !RowHasId(data[j], searchId)
  {
    FirstFrom(data, (row: Row) => RowHasId(row, searchId), i)
  }

  /** The first data row (the header row 0 excluded) with the id. */
  function FirstRow(data: seq<Row>, searchId: string): Option<nat> {
    FirstRowFrom(data, searchId, 1)
  }

  /** The row scan with break: the 1-based sheet row of the first match, or -1. */
  method FindRow(data: seq<Row>, searchId: string) returns (rowIndex: int)
    ensures rowIndex == -1 <==> forall i :: 1 <= i < |data| ==> !RowHasId(data[i], searchId)
    ensures rowIndex != -1 ==> 2 <= rowIndex <= |data| && RowHasId(data[rowIndex - 1], searchId)
                               && forall i :: 1 <= i < rowIndex - 1 ==> !RowHasId(data[i], searchId)
    ensures FirstRow(data, searchId) == if rowIndex == -1 then None else Some(rowIndex - 1)
  {
    rowIndex := -1;
    var i := 1;
    while i < |data|
      invariant 1 <= i
      invariant forall j :: 1 <= j < i && j < |data| ==> !RowHasId(data[j], searchId)
      invariant FirstRowFrom(data, searchId, i) == FirstRow(data, searchId)
    {
      if RowHasId(data[i], searchId) {
        rowIndex := i + 1;
        break;
      }
      i := i + 1;
    }
  }

  /** The header repair: row 1 is rewritten when it is too short or does not start with 'id'. */
  function HeaderFixed(data: seq<Row>): (r: seq<Row>)
    requires |data| >= 1
    ensures |r| == |data| && r[1..] == data[1..]
    ensures |r[0]| >= |Headers| && r[0][0] == Str("id")
    ensures |data[0]| >= |Headers| && data[0][0] == Str("id") ==> r == data
    ensures |data[0]| < |Headers| || data[0][0] != Str("id") ==>
      && r[0][..|Headers|] == HeaderRow
      && |r[0]| == (if |data[0]| > |Headers| then |data[0]| else |Headers|)
      && forall i :: |Headers| <= i < |data[0]| ==> r[0][i] == data[0][i]
  {
    if |data[0]| < |Headers| || data[0][0] != Str("id") then data[0 := Overwrite(data[0], HeaderRow)]
    else data
  }

  /** What is written: the gift, marked deleted for a delete. */
  function Posted(g: Gift, action: string): (r: Gift)
    ensures r.isDeleted == (action == "delete" || g.isDeleted)
    ensures r.(isDeleted := g.isDeleted) == g
  {
    if action == "delete" then g.(isDeleted := true) else g
  }

  /** Overwrite the first data row with the id, or append the values as a new row. */
  function Upsert(data: seq<Row>, searchId: string, values: Row): (r: seq<Row>)
    ensures FirstRow(data, searchId).None? ==> r == data + [values]
    ensures FirstRow(data, searchId).Some? ==>
      var k := FirstRow(data, searchId).value;
      && |r| == |data| && k < |r| && |r[k]| >= |values|
      && r[k][..|values|] == values
      && (forall i :: |values| <= i < |data[k]| ==> i < |r[k]| && r[k][i] == data[k][i])
      && (forall i :: 0 <= i < |data| && i != k ==> r[i] == data[i])
  {
    match FirstRow(data, searchId)
    case Some(k) => data[k := Overwrite(data[k], values)]
    case None => data + [values]
  }

  datatype Status = Ok | Error

  /** The active sheet's data range; it always has at least the header row. */
  class Sheet {
    var rows: seq<Row>

    ghost predicate Valid()
      reads this
    {
      |rows| >= 1
    }

    constructor (initial: seq<Row>)
      requires |initial| >= 1
      ensures Valid() && rows == initial
    {
      rows := initial;
    }

    /** The header repair applied to the sheet. */
    method FixHeader()
      requires Valid()
      modifies this
      ensures Valid() && rows == HeaderFixed(old(rows))
    {
      if |rows[0]| < |Headers| || rows[0][0] != Str("id") {
        rows := rows[0 := Overwrite(rows[0], HeaderRow)];
      }
    }

    /** setValues on the found row, or appendRow when the scan found none. */
    method WriteRow(rowIndex: int, searchId: string, values: Row)
      requires Valid()
      requires FirstRow(rows, searchId) == if rowIndex == -1 then None else Some(rowIndex - 1)
      modifies this
      ensures Valid() && rows == Upsert(old(rows), searchId, values)
    {
      if rowIndex > -1 {
        rows := rows[rowIndex - 1 := Overwrite(rows[rowIndex - 1], values)];
      } else {
        rows := rows + [values];
      }
    }

    /** doPost after the JSON body has been parsed into action and gift. */
    method DoPost(action: string, gift: Gift) returns (status: Status)
      requires Valid()
      modifies this
      ensures Valid()
      ensures action != "save" && action != "delete" ==> status == Error && rows == HeaderFixed(old(rows))
      ensures action == "save" || action == "delete" ==>
        status == Ok
        && rows == Upsert(HeaderFixed(old(rows)), Text.Trim(gift.id), RowOf(Posted(gift, action)))
    {
      FixHeader();
      if action == "save" || action == "delete" {
        var searchId := Text.Trim(gift.id);
        var rowIndex := FindRow(rows, searchId);
        var g := if action == "delete" then gift.(isDeleted := true) else gift;
        assert g == Posted(gift, action);
        WriteRow(rowIndex, searchId, RowOf(g));
        return Ok;
      }
      return Error;
    }
  }

  // ---------------------------------------------------------------------
  // Properties of the upsert

  /** The gift's own row carries its trimmed id. */
  lemma RowOfHasId(g: Gift)
    ensures RowHasId(RowOf(g), Text.Trim(g.id))
  {
  }

  /** After the upsert the id is found again, at the row just written, and
      every other row is as it was; at most one row is added. */
  lemma UpsertThenFind(data: seq<Row>, searchId: string, values: Row)
    requires |data| >= 1 && RowHasId(values, searchId)
    ensures var r := Upsert(data, searchId, values);
      && (|r| == |data| || r == data + [values])
      && FirstRow(r, searchId).Some?
      && |r[FirstRow(r, searchId).value]| >= |values|
      && r[FirstRow(r, searchId).value][..|values|] == values
      && (forall i :: 0 <= i < |data| && i != FirstRow(r, searchId).value ==> r[i] == data[i])
  {
    var r := Upsert(data, searchId, values);
    match FirstRow(data, searchId)
    case Some(k) =>
      assert r[k][0] == values[0];
      assert forall j :: 1 <= j < k ==> r[j] == data[j];
      FirstRowAt(r, searchId, 1, k);
    case None =>
      assert forall j :: 1 <= j < |data| ==> r[j] == data[j];
      FirstRowAt(r, searchId, 1, |data|);
  }

  /** A row with the id, preceded from i on only by rows without it, is the
      first match from i. */
  lemma FirstRowAt(rows: seq<Row>, id: string, i: nat, k: nat)
    requires i <= k < |rows|
    requires forall j :: i <= j < k ==> !RowHasId(rows[j], id)
    requires RowHasId(rows[k], id)
    ensures FirstRowFrom(rows, id, i) == Some(k)
  {
    FirstAt(rows, (row: Row) => RowHasId(row, id), i, k);
  }

  /** Writing the same values twice leaves the sheet as writing them once. */
  lemma UpsertIdempotent(data: seq<Row>, searchId: string, values: Row)
    requires |data| >= 1 && RowHasId(values, searchId)
    ensures Upsert(Upsert(data, searchId, values), searchId, values) == Upsert(data, searchId, values)
  {
    var r := Upsert(data, searchId, values);
    UpsertThenFind(data, searchId, values);
    var k := FirstRow(r, searchId).value;
    assert r[k] == r[k][..|values|] + r[k][|values|..];
    assert Overwrite(r[k], values) == r[k];
    assert r[k := r[k]] == r;
  }

  /** Saving a gift twice on the sheet leaves it as saving it once, and the
      gift's row is then the first row with its trimmed id. */
  lemma SaveGiftIdempotent(data: seq<Row>, g: Gift)
    requires |data| >= 1
    ensures var r := Upsert(data, Text.Trim(g.id), RowOf(g));
      && Upsert(r, Text.Trim(g.id), RowOf(g)) == r
      && FirstRow(r, Text.Trim(g.id)).Some?
      && |r[FirstRow(r, Text.Trim(g.id)).value]| >= |Headers|
      && r[FirstRow(r, Text.Trim(g.id)).value][..|Headers|] == RowOf(g)
  {
    RowOfHasId(g);
    UpsertThenFind(data, Text.Trim(g.id), RowOf(g));
    UpsertIdempotent(data, Text.Trim(g.id), RowOf(g));
  }

  /** A delete writes the gift with isDeleted set in column R. */
  lemma DeleteWritesDeletedFlag(g: Gift)
    ensures Posted(g, "delete").isDeleted && RowOf(Posted(g, "delete"))[17] == Flag(true)
    ensures Headers[17] == "isDeleted"
  {
  }
}
