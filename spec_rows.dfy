/** The specification tables of a BeForward listing, as the two parsers turn
    them into a dict: rus_bot.py `_extract_specs` reads every row's cells in
    pairs and filters them; rus_bot_fast.py `_get_specs` reads one header and
    one data cell per row. Cells arrive as the texts `get_text(strip=True)`
    produced; finding the table in the HTML is not part of this model. */
module SpecRows {
  import opened Wrappers
  import opened Text
  import opened OrderedDict

  /** config.py EXCLUDED_FIELDS. */
  const ExcludedFields: seq<string> := ["Chassis", "Sub Ref", "Ref. No", "Ref No"]

  /** The link text BeForward puts into some values. */
  const FindPartsPhrase: string := "Find parts for this model code"

  /** rus_bot.py skips a key that contains any excluded field, ignoring case. */
  predicate ExcludedKeyword(key: string) {
    exists k :: 0 <= k < |ExcludedFields| && IsInfix(Lower(ExcludedFields[k]), Lower(key))
  }

  /** What `_extract_specs` stores for one (key, value) pair of cells, if
      anything. */
  function PairEntry(key: string, value: string): (r: Option<string>)
    ensures r.Some? ==> key != [] && !ExcludedKeyword(key)
    ensures r.Some? ==> r.value != [] && r.value != "-"
    ensures r.Some? && !IsInfix(FindPartsPhrase, value) ==> r.value == value
    ensures r.Some? && IsInfix(FindPartsPhrase, value) ==>
              r.value == Strip(ReplaceAll(value, FindPartsPhrase, ""))
    ensures (key != [] && value != [] && value != "-" && !ExcludedKeyword(key) &&
             !IsInfix(FindPartsPhrase, value)) ==> r == Some(value)
  {
    if key == [] || value == [] then None
    else if ExcludedKeyword(key) then None
    else if value == "-" then None
    else
      var cleaned := if IsInfix(FindPartsPhrase, value) then Strip(ReplaceAll(value, FindPartsPhrase, "")) else value;
      if cleaned != [] && cleaned != "-" then Some(cleaned) else None
  }

  /** The pairs `while i < len(cells) - 1: ... i += 2` visits: cells 0 and 1,
      2 and 3, and so on; an odd last cell has no partner. */
  function RowPairs(cells: seq<string>): (ps: seq<(string, string)>)
    ensures |ps| == |cells| / 2
    ensures forall k :: 0 <= k < |ps| ==> ps[k] == (cells[2 * k], cells[2 * k + 1])
  {
    seq(|cells| / 2, k requires 0 <= k < |cells| / 2 => (cells[2 * k], cells[2 * k + 1]))
  }

  /** Every pair of every row, rows in order. */
  function AllPairs(rows: seq<seq<string>>): seq<(string, string)> {
    if rows == [] then [] else AllPairs(rows[..|rows| - 1]) + RowPairs(rows[|rows| - 1])
  }

  /** The dict `d` after visiting `ps` in order: each pair that passes the
      filter is assigned with `specs[key] = value`. */
  function StoreFrom(d: Dict, ps: seq<(string, string)>): (r: Dict)
    requires UniqueKeys(d)
    ensures UniqueKeys(r)
  {
    if ps == [] then d
    else
      var prev := StoreFrom(d, ps[..|ps| - 1]);
      var p := ps[|ps| - 1];
      match PairEntry(p.0, p.1)
      case None => prev
      case Some(v) => Put(prev, p.0, v)
  }

  /** Visiting one more pair. */
  lemma StoreFromSnoc(d: Dict, ps: seq<(string, string)>, p: (string, string))
    requires UniqueKeys(d)
    ensures StoreFrom(d, ps + [p]) ==
              if PairEntry(p.0, p.1).Some? then Put(StoreFrom(d, ps), p.0, PairEntry(p.0, p.1).value)
              else StoreFrom(d, ps)
  {
    assert (ps + [p])[..|ps|] == ps;
  }

  /** Visiting two runs of pairs one after the other. */
  lemma {:induction false} StoreFromAppend(d: Dict, a: seq<(string, string)>, b: seq<(string, string)>)
    requires UniqueKeys(d)
    ensures StoreFrom(d, a + b) == StoreFrom(StoreFrom(d, a), b)
  {
    if b != [] {
      assert (a + b)[..|a + b| - 1] == a + b[..|b| - 1];
      StoreFromAppend(d, a, b[..|b| - 1]);
    } else {
      assert a + b == a;
    }
  }

  /** The dict `_extract_specs` returns for the pairs `ps`. */
  function StoreAll(ps: seq<(string, string)>): (d: Dict)
    ensures UniqueKeys(d)
  {
    StoreFrom([], ps)
  }

  /** The inner loop of `_extract_specs` over one row's cells. */
  method StoreRow(specs: Dict, cells: seq<string>) returns (out: Dict)
    requires UniqueKeys(specs)
    ensures out == StoreFrom(specs, RowPairs(cells))
  {
    out := specs;
    var i := 0;
    ghost var k := 0;
    while i < |cells| - 1
      invariant 0 <= k <= |cells| / 2 && i == 2 * k
      invariant out == StoreFrom(specs, RowPairs(cells)[..k])
    {
      var key := cells[i];
      var value := cells[i + 1];
      assert RowPairs(cells)[..k + 1] == RowPairs(cells)[..k] + [(key, value)];
      StoreFromSnoc(specs, RowPairs(cells)[..k], (key, value));
      var entry := PairEntry(key, value);
      if entry.Some? {
        out := Put(out, key, entry.value);
      }
      i := i + 2;
      k := k + 1;
    }
    assert RowPairs(cells)[..k] == RowPairs(cells);
  }

  /** `_extract_specs` over the rows of the table it found. */
  method ExtractSpecs(rows: seq<seq<string>>) returns (specs: Dict)
    ensures specs == StoreAll(AllPairs(rows))
  {
    specs := [];
    var r := 0;
    while r < |rows|
      invariant 0 <= r <= |rows|
      invariant specs == StoreAll(AllPairs(rows[..r]))
    {
      assert rows[..r + 1][..r] == rows[..r];
      StoreFromAppend([], AllPairs(rows[..r]), RowPairs(rows[r]));
      specs := StoreRow(specs, rows[r]);
      r := r + 1;
    }
    assert rows[..|rows|] == rows;
  }

  /** What `specs.get(key)` holds after visiting `ps`: the value of the last
      pair with that key that was stored. */
  function LastEntry(ps: seq<(string, string)>, key: string): Option<string> {
    if ps == [] then None
    else
      var p := ps[|ps| - 1];
      if p.0 == key && PairEntry(p.0, p.1).Some? then PairEntry(p.0, p.1)
      else LastEntry(ps[..|ps| - 1], key)
  }

  /** Reading the dict gives the last stored pair of each key: a later row
      with the same heading overwrites an earlier one. */
  lemma {:induction false} StoreAllGet(ps: seq<(string, string)>, key: string)
    ensures Get(StoreAll(ps), key) == LastEntry(ps, key)
  {
    if ps != [] {
      var init := ps[..|ps| - 1];
      var p := ps[|ps| - 1];
      StoreAllGet(init, key);
      assert StoreAll(init) == StoreFrom([], init);
      var e := PairEntry(p.0, p.1);
      if e.Some? {
        if p.0 == key {
          PutThenGet(StoreAll(init), key, e.value);
        } else {
          PutThenGetOther(StoreAll(init), p.0, e.value, key);
        }
      }
    }
  }

  /** Whatever is stored passed the filter: a non-empty key free of the
      excluded keywords, and a value that is neither empty nor `-`. */
  lemma {:induction false} LastEntryClean(ps: seq<(string, string)>, key: string)
    requires LastEntry(ps, key).Some?
    ensures key != [] && !ExcludedKeyword(key)
    ensures LastEntry(ps, key).value != [] && LastEntry(ps, key).value != "-"
    ensures exists i :: 0 <= i < |ps| && ps[i].0 == key && PairEntry(ps[i].0, ps[i].1) == LastEntry(ps, key)
  {
    var init := ps[..|ps| - 1];
    var p := ps[|ps| - 1];
    if !(p.0 == key && PairEntry(p.0, p.1).Some?) {
      LastEntryClean(init, key);
      var i :| 0 <= i < |init| && init[i].0 == key && PairEntry(init[i].0, init[i].1) == LastEntry(init, key);
      assert ps[i] == init[i];
    }
  }

  /** The spec table `_extract_specs` returns holds only keys without an
      excluded keyword and values other than `""` and `"-"`, each value
      coming from a pair of cells with that key. */
  lemma ExtractedSpecsClean(rows: seq<seq<string>>, key: string)
    ensures var v := Get(StoreAll(AllPairs(rows)), key);
            v.Some? ==> key != [] && !ExcludedKeyword(key) && v.value != [] && v.value != "-"
    ensures var v := Get(StoreAll(AllPairs(rows)), key);
            v.Some? ==> exists p :: p in AllPairs(rows) && p.0 == key && PairEntry(p.0, p.1) == v
  {
    StoreAllGet(AllPairs(rows), key);
    if LastEntry(AllPairs(rows), key).Some? {
      LastEntryClean(AllPairs(rows), key);
    }
  }

  /** One pass of `replace` does not guarantee that the phrase is gone: the
      text around a removed copy can join into a new copy, which is then
      stored. */
  lemma FindPartsPhraseCanRemain()
    ensures var p := FindPartsPhrase;
            PairEntry("Grade", [p[0]] + p + p[1..]) == Some(p)
  {
    var p := FindPartsPhrase;
    var v := [p[0]] + p + p[1..];
    ReplaceCanLeaveOccurrence(p);
    assert OccursAt(p, v, 1) by {
      assert v[1..1 + |p|] == p;
    }
    GradeNotExcluded();
    PhraseIsStripped();
  }

  lemma GradeNotExcluded()
    ensures !ExcludedKeyword("Grade")
  {
    forall k | 0 <= k < |ExcludedFields| ensures !IsInfix(Lower(ExcludedFields[k]), Lower("Grade")) {
      assert |Lower(ExcludedFields[k])| > |Lower("Grade")|;
    }
  }

  lemma PhraseIsStripped()
    ensures Strip(FindPartsPhrase) == FindPartsPhrase
  {
    var p := FindPartsPhrase;
    assert !IsSpace(p[0]) && !IsSpace(p[|p| - 1]);
    assert LStrip(p) == p;
    assert RStrip(p) == p;
  }

  /** A cell with no partner at the end of a row is ignored. */
  lemma TrailingCellIgnored(cells: seq<string>, extra: string)
    requires |cells| % 2 == 0
    ensures RowPairs(cells + [extra]) == RowPairs(cells)
  {
  }

  // ---------------------------------------------------------------------
  // rus_bot_fast.py

  /** One `tr` of the fast parser: the text of its `th` and of its `td`, each
      absent when the row has no such cell. */
  type HeaderRow = (Option<string>, Option<string>)

  /** `_get_specs` compares the whole key against the excluded names,
      case-sensitively. */
  predicate ExactlyExcluded(key: string) {
    key in ExcludedFields
  }

  /** The dict `_get_specs` builds from the rows handled so far. */
  function FastSpecs(rows: seq<HeaderRow>): (d: Dict)
    ensures UniqueKeys(d)
  {
    if rows == [] then []
    else
      var d := FastSpecs(rows[..|rows| - 1]);
      var row := rows[|rows| - 1];
      if row.0.Some? && row.1.Some? && !ExactlyExcluded(row.0.value) then Put(d, row.0.value, row.1.value)
      else d
  }

  /** `_get_specs`: one pass over the rows. */
  method GetSpecs(rows: seq<HeaderRow>) returns (specs: Dict)
    ensures specs == FastSpecs(rows)
  {
    specs := [];
    var i := 0;
    while i < |rows|
      invariant 0 <= i <= |rows|
      invariant specs == FastSpecs(rows[..i])
    {
      assert rows[..i + 1][..i] == rows[..i];
      var row := rows[i];
      if row.0.Some? && row.1.Some? {
        var key := row.0.value;
        if !ExactlyExcluded(key) {
          specs := Put(specs, key, row.1.value);
        }
      }
      i := i + 1;
    }
    assert rows[..|rows|] == rows;
  }

  /** A key is in the fast parser's dict exactly when some row has both cells
      and that key, and the key is not one of the four names. */
  lemma {:induction false} FastSpecsKeys(rows: seq<HeaderRow>, key: string)
    ensures key in Keys(FastSpecs(rows)) <==>
              !ExactlyExcluded(key) &&
              exists i :: 0 <= i < |rows| && rows[i].0 == Some(key) && rows[i].1.Some?
  {
    if rows != [] {
      var init := rows[..|rows| - 1];
      FastSpecsKeys(init, key);
      if exists i :: 0 <= i < |init| && init[i].0 == Some(key) && init[i].1.Some? {
        var i :| 0 <= i < |init| && init[i].0 == Some(key) && init[i].1.Some?;
        assert rows[i] == init[i];
      }
      if exists i :: 0 <= i < |rows| && rows[i].0 == Some(key) && rows[i].1.Some? {
        var i :| 0 <= i < |rows| && rows[i].0 == Some(key) && rows[i].1.Some?;
        if i < |init| {
          assert init[i] == rows[i];
        }
      }
    }
  }

  /** The two parsers disagree on a heading such as `Chassis No.`: rus_bot.py
      drops it because it contains `Chassis`, rus_bot_fast.py keeps it because
      it is not exactly one of the four names; rus_bot_fast.py also keeps a
      `-` value, which rus_bot.py drops. */
  lemma ParsersDisagree()
    ensures PairEntry("Chassis No.", "ABC123").None?
    ensures Get(FastSpecs([(Some("Chassis No."), Some("ABC123"))]), "Chassis No.") == Some("ABC123")
    ensures PairEntry("Mileage", "-").None?
    ensures Get(FastSpecs([(Some("Mileage"), Some("-"))]), "Mileage") == Some("-")
  {
    assert Lower("Chassis") == "chassis";
    assert Lower("Chassis No.")[..7] == "chassis";
    assert OccursAt(Lower(ExcludedFields[0]), Lower("Chassis No."), 0);
    assert !ExactlyExcluded("Chassis No.");
    assert !ExactlyExcluded("Mileage");
    PutThenGet([], "Chassis No.", "ABC123");
    PutThenGet([], "Mileage", "-");
  }
}
