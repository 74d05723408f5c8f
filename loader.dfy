/** Reading the catalogue: one already-separated row of `items.csv` becomes
    an `ItemData`, and the rows become the catalogue in row order. A bad id,
    an unknown classification or an unknown group aborts loading. */
module Loader {
  import opened Wrappers
  import opened Items

  /** The four fields of one row, as the CSV reader hands them over. */
  datatype Row = Row(id: string, name: string, classification: string, groups: string)

  /** Why a row cannot be decoded. */
  datatype LoadError =
    | BadId(text: string)                  // `int(...)` raises ValueError
    | UnknownClassification(name: string)  // `ItemClassification[...]` raises KeyError
    | UnknownGroup(name: string)           // `Group[...]` raises KeyError

  // ---------------------------------------------------------------------
  // `str.split(",")` and its inverse

  /** The pieces between the commas of `s`; an empty string is one empty piece. */
  function Split(s: string): (pieces: seq<string>)
    ensures |pieces| >= 1
    decreases |s|
  {
    if s == [] then [""]
    else
      var rest := Split(s[1..]);
      if s[0] == ',' then [""] + rest else [[s[0]] + rest[0]] + rest[1..]
  }

  /** `",".join(pieces)`. */
  function Join(pieces: seq<string>): string
    requires |pieces| >= 1
  {
    if |pieces| == 1 then pieces[0] else pieces[0] + "," + Join(pieces[1..])
  }

  /** Splitting loses nothing: joining the pieces with commas gives the field
      back, and no piece contains a comma. */
  lemma {:induction false} JoinSplit(s: string)
    ensures Join(Split(s)) == s
    ensures forall p :: p in Split(s) ==> ',' !in p
    decreases |s|
  {
    if s != [] {
      JoinSplit(s[1..]);
      var rest := Split(s[1..]);
      assert s == [s[0]] + s[1..];
      if s[0] == ',' {
        assert Split(s) == [""] + rest;
        assert ([""] + rest)[1..] == rest;
      } else {
        var pieces := [[s[0]] + rest[0]] + rest[1..];
        assert Split(s) == pieces;
        if |rest| > 1 {
          assert pieces[1..] == rest[1..];
          assert Join(rest) == rest[0] + "," + Join(rest[1..]);
        }
        forall p | p in pieces ensures ',' !in p {
          if p != pieces[0] {
            assert p in rest;
          }
        }
      }
    }
  }

  lemma {:induction false} SplitComma(p: string, t: string)
    requires ',' !in p
    ensures Split(p + t) == [p + Split(t)[0]] + Split(t)[1..]
    decreases |p|
  {
    if p == [] {
      assert p + t == t;
      assert p + Split(t)[0] == Split(t)[0];
      assert Split(t) == [Split(t)[0]] + Split(t)[1..];
    } else {
      SplitComma(p[1..], t);
      assert p[0] in p;
      assert (p + t)[0] == p[0] && (p + t)[1..] == p[1..] + t;
      var rest := Split(p[1..] + t);
      assert Split(p + t) == [[p[0]] + rest[0]] + rest[1..];
      assert rest[1..] == Split(t)[1..];
      assert [p[0]] + (p[1..] + Split(t)[0]) == p + Split(t)[0];
    }
  }

  /** Splitting undoes joining comma-free pieces. */
  lemma {:induction false} SplitJoin(pieces: seq<string>)
    requires |pieces| >= 1
    requires forall p :: p in pieces ==> ',' !in p
    ensures Split(Join(pieces)) == pieces
    decreases |pieces|
  {
    if |pieces| == 1 {
      SplitComma(pieces[0], "");
      assert pieces[0] + "" == pieces[0];
    } else {
      var tail := pieces[1..];
      assert forall p :: p in tail ==> p in pieces;
      SplitJoin(tail);
      assert pieces[0] in pieces;
      SplitComma(pieces[0], "," + Join(tail));
      var after := Split("," + Join(tail));
      assert after == [""] + Split(Join(tail)) by {
        assert ("," + Join(tail))[1..] == Join(tail);
      }
      assert after[0] == "" && after[1..] == tail;
      assert pieces[0] + after[0] == pieces[0];
      assert Join(pieces) == pieces[0] + ("," + Join(tail));
      assert pieces == [pieces[0]] + tail;
    }
  }

  // ---------------------------------------------------------------------
  // The id column

  predicate IsDigits(s: string)
  {
    forall i :: 0 <= i < |s| ==> '0' <= s[i] <= '9'
  }

  /** The number a string of decimal digits denotes (leading zeros allowed). */
  function DigitsValue(s: string): nat
    requires IsDigits(s)
  {
    if s == [] then 0
    else DigitsValue(s[..|s| - 1]) * 10 + (s[|s| - 1] as int - '0' as int)
  }

  /** The decimal spelling of `n`, without leading zeros. */
  function ShowNat(n: nat): string
  {
    if n < 10 then [('0' as int + n) as char]
    else ShowNat(n / 10) + [('0' as int + n % 10) as char]
  }

  /** The id field: empty means no id; otherwise `int(...)` of a digit string,
      and anything else is a ValueError. */
  function ParseId(s: string): (r: Result<Option<int>, LoadError>)
    ensures r == Ok(None) <==> s == ""
    ensures r.Err? <==> s != "" && !IsDigits(s)
    ensures r.Err? ==> r.error == BadId(s)
    ensures r.Ok? && r.value.Some? ==> r.value.value >= 0
  {
    if s == [] then Ok(None)
    else if IsDigits(s) then Ok(Some(DigitsValue(s)))
    else Err(BadId(s))
  }

  /** Every natural number written out in decimal is read back as itself. */
  lemma {:induction false} ParseIdShowNat(n: nat)
    ensures ShowNat(n) != [] && IsDigits(ShowNat(n))
    ensures ParseId(ShowNat(n)) == Ok(Some(n))
    decreases n
  {
    var s := ShowNat(n);
    if n < 10 {
      assert s[..|s| - 1] == [];
      assert DigitsValue(s) == n;
    } else {
      ParseIdShowNat(n / 10);
      assert s[..|s| - 1] == ShowNat(n / 10);
      assert forall i :: 0 <= i < |s| - 1 ==> s[i] == ShowNat(n / 10)[i];
      assert IsDigits(s);
      assert DigitsValue(ShowNat(n / 10)) == n / 10;
      assert DigitsValue(s) == n;
    }
  }

  // ---------------------------------------------------------------------
  // The groups column

  /** The set comprehension over the pieces of the groups field: empty pieces
      are skipped and every other one is looked up in order, so that the
      first piece naming no group is the error. */
  function DecodeGroupPieces(pieces: seq<string>): Result<seq<Group>, LoadError>
    decreases |pieces|
  {
    if pieces == [] then Ok([])
    else if pieces[0] == "" then DecodeGroupPieces(pieces[1..])
    else match GroupNamed(pieces[0])
      case None => Err(UnknownGroup(pieces[0]))
      case Some(g) =>
        match DecodeGroupPieces(pieces[1..])
        case Ok(gs) => Ok([g] + gs)
        case Err(e) => Err(e)
  }

  /** Piece `i` is the first one that is neither empty nor a group name. */
  ghost predicate FirstUnknownGroup(pieces: seq<string>, i: int)
    requires 0 <= i < |pieces|
  {
    && pieces[i] != "" && GroupNamed(pieces[i]).None?
    && forall j :: 0 <= j < i ==> pieces[j] == "" || GroupNamed(pieces[j]).Some?
  }

  /** Decoding the groups succeeds exactly when every non-empty piece names
      a group. */
  lemma {:induction false} DecodeGroupPiecesOk(pieces: seq<string>)
    ensures DecodeGroupPieces(pieces).Ok? <==>
              forall i :: 0 <= i < |pieces| ==> pieces[i] == "" || GroupNamed(pieces[i]).Some?
    decreases |pieces|
  {
    if pieces != [] {
      var tail := pieces[1..];
      DecodeGroupPiecesOk(tail);
      assert forall i :: 1 <= i < |pieces| ==> pieces[i] == tail[i - 1];
    }
  }

  /** The groups decoded are exactly those whose names occur among the pieces. */
  lemma {:induction false} DecodeGroupPiecesValues(pieces: seq<string>)
    requires DecodeGroupPieces(pieces).Ok?
    ensures forall g :: g in DecodeGroupPieces(pieces).value <==> GroupName(g) in pieces
    decreases |pieces|
  {
    if pieces != [] {
      var tail := pieces[1..];
      assert pieces == [pieces[0]] + tail;
      DecodeGroupPiecesValues(tail);
    }
  }

  /** A failure reports the first non-empty piece that names no group. */
  lemma {:induction false} DecodeGroupPiecesError(pieces: seq<string>)
    requires DecodeGroupPieces(pieces).Err?
    ensures exists i :: 0 <= i < |pieces| && FirstUnknownGroup(pieces, i) &&
                        DecodeGroupPieces(pieces).error == UnknownGroup(pieces[i])
    decreases |pieces|
  {
    var tail := pieces[1..];
    if pieces[0] != "" && GroupNamed(pieces[0]).None? {
      assert FirstUnknownGroup(pieces, 0);
    } else {
      DecodeGroupPiecesError(tail);
      var i :| 0 <= i < |tail| && FirstUnknownGroup(tail, i) &&
               DecodeGroupPieces(tail).error == UnknownGroup(tail[i]);
      assert forall j :: 1 <= j < |pieces| ==> pieces[j] == tail[j - 1];
      assert FirstUnknownGroup(pieces, i + 1);
    }
  }

  // ---------------------------------------------------------------------
  // One row, and the whole table

  /** The loop body of `load_item_csv`: parse the id, look up the
      classification, decode the groups, and build the record. */
  function DecodeRow(row: Row): Result<ItemData, LoadError>
  {
    match ParseId(row.id)
    case Err(e) => Err(e)
    case Ok(id) =>
      match ClassificationNamed(row.classification)
      case None => Err(UnknownClassification(row.classification))
      case Some(classification) =>
        match DecodeGroupPieces(Split(row.groups))
        case Err(e) => Err(e)
        case Ok(groups) => Ok(MakeItemData(id, row.name, classification, groups))
  }

  /** The failures come in source order: a bad id first, then an unknown
      classification, then an unknown group piece. A row decodes exactly when
      none of these happens, and then the record holds the row's name, no id
      exactly when the id field is empty and otherwise its decimal value, the
      named classification, and exactly the groups named in the field. */
  lemma DecodeRowMeaning(row: Row)
    ensures ParseId(row.id).Err? ==> DecodeRow(row) == Err(BadId(row.id))
    ensures ParseId(row.id).Ok? && ClassificationNamed(row.classification).None? ==>
              DecodeRow(row) == Err(UnknownClassification(row.classification))
    ensures DecodeRow(row).Ok? <==> && ParseId(row.id).Ok?
                                    && ClassificationNamed(row.classification).Some?
                                    && forall p :: p in Split(row.groups) ==> p == "" || GroupNamed(p).Some?
    ensures ParseId(row.id).Ok? && ClassificationNamed(row.classification).Some? && DecodeRow(row).Err? ==>
              && DecodeRow(row).error.UnknownGroup?
              && exists i :: 0 <= i < |Split(row.groups)| && FirstUnknownGroup(Split(row.groups), i) &&
                             DecodeRow(row).error == UnknownGroup(Split(row.groups)[i])
    ensures DecodeRow(row).Ok? ==>
              var item := DecodeRow(row).value;
              && item.name == row.name
              && (item.codeWithoutOffset.None? <==> row.id == "")
              && (row.id != "" ==> item.codeWithoutOffset == Some(DigitsValue(row.id)))
              && ClassificationName(item.classification) == row.classification
              && forall g :: g in item.groups <==> GroupName(g) in Split(row.groups)
  {
    var pieces := Split(row.groups);
    DecodeGroupPiecesOk(pieces);
    if DecodeGroupPieces(pieces).Ok? {
      DecodeGroupPiecesValues(pieces);
    } else {
      DecodeGroupPiecesError(pieces);
    }
    assert forall p :: p in pieces ==> exists i :: 0 <= i < |pieces| && pieces[i] == p;
  }

  /** `load_item_csv` after the file has been opened and split into rows:
      every row decodes, and the catalogue holds the decoded rows in row
      order; or the error is that of the first row that does not decode. */
  method LoadItemCsv(rows: seq<Row>) returns (r: Result<seq<ItemData>, LoadError>)
    ensures r.Ok? <==> forall i :: 0 <= i < |rows| ==> DecodeRow(rows[i]).Ok?
    ensures r.Ok? ==> |r.value| == |rows| &&
                      forall i :: 0 <= i < |rows| ==> DecodeRow(rows[i]) == Ok(r.value[i])
    ensures r.Err? ==> exists k :: 0 <= k < |rows| && DecodeRow(rows[k]) == Err(r.error) &&
                                   forall j :: 0 <= j < k ==> DecodeRow(rows[j]).Ok?
  {
    var items: seq<ItemData> := [];
    var i := 0;
    while i < |rows|
      invariant 0 <= i <= |rows|
      invariant |items| == i
      invariant forall j :: 0 <= j < i ==> DecodeRow(rows[j]) == Ok(items[j])
    {
      var decoded := DecodeRow(rows[i]);
      if decoded.Err? {
        r := Err(decoded.error);
        assert DecodeRow(rows[i]) == Err(r.error) && forall j :: 0 <= j < i ==> DecodeRow(rows[j]).Ok?;
        return;
      }
      items := items + [decoded.value];
      i := i + 1;
    }
    return Ok(items);
  }
}
