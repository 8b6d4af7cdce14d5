/** `MockXTopicAnalyzer`: the stand-in analyzer returns a prefix of fixed mock
    rows, and its `save_to_excel` chooses between a workbook and a CSV file by
    the name's extension and by whether the spreadsheet engine is installed. The
    mock rows are an input, and so is the presence of the engine. */
module Mock {
  import opened Text
  import opened Frame
  import opened Export

  const MockPrefix: string := "x_analysis_mock_"
  const CsvExtension: string := ".csv"

  /** `analyze_topic`: `MOCK_POSTS[:min(len(MOCK_POSTS), max_posts)]`, whatever
      the keyword. A prefix of the mock rows, as long as `max_posts` allows; a
      negative `max_posts` drops that many rows from the end instead. */
  function MockAnalyzeTopic(mockPosts: seq<Row>, keyword: string, maxPosts: int): (rows: seq<Row>)
    ensures |rows| <= |mockPosts| && rows == mockPosts[..|rows|]
    ensures 0 <= maxPosts ==> |rows| == Min(|mockPosts|, maxPosts)
    ensures maxPosts < 0 ==> |rows| == Max(|mockPosts| + maxPosts, 0)
  {
    PrefixSlice(mockPosts, Min(|mockPosts|, maxPosts))
  }

  /** The generated name: ".xlsx" when the engine imports, ".csv" otherwise. */
  function AutoName(timestamp: string, openpyxlInstalled: bool): (name: string)
    ensures StartsWith(name, MockPrefix + timestamp)
    ensures EndsWith(name, XlsxExtension) <==> openpyxlInstalled
    ensures !openpyxlInstalled ==> EndsWith(name, CsvExtension)
    ensures |name| == |MockPrefix| + |timestamp| + (if openpyxlInstalled then |XlsxExtension| else |CsvExtension|)
  {
    var name := MockPrefix + timestamp + (if openpyxlInstalled then XlsxExtension else CsvExtension);
    assert name[..|MockPrefix + timestamp|] == MockPrefix + timestamp;
    assert name[|name| - 1] == (if openpyxlInstalled then 'x' else 'v');
    name
  }

  /** The name `save_to_excel` announces before writing: the caller's name as
      given, else the generated name for the engine's presence. */
  function ChosenName(filename: Option<string>, timestamp: string, openpyxlInstalled: bool): (name: string)
    ensures filename.Some? ==> name == filename.value
    ensures filename.None? ==> StartsWith(name, MockPrefix + timestamp)
    ensures filename.None? ==> (EndsWith(name, XlsxExtension) <==> openpyxlInstalled)
    ensures filename.None? ==> name == AutoName(timestamp, openpyxlInstalled)
  {
    if filename.Some? then filename.value else AutoName(timestamp, openpyxlInstalled)
  }

  /** `save_to_excel`: an empty frame writes nothing. A name ending in ".xlsx"
      goes to a workbook when the engine is installed and, when it is not, to a
      CSV file under the name with ".xlsx" replaced by ".csv"; any other name is
      written as CSV as it is. The frame's rows are written either way. */
  method MockSaveToExcel(frame: seq<Row>, filename: Option<string>, timestamp: string,
                         openpyxlInstalled: bool)
    returns (written: Option<Written>)
    ensures written.None? <==> frame == []
    ensures written.Some? ==> written.value.rows == frame
    ensures written.Some? ==>
              var chosen := ChosenName(filename, timestamp, openpyxlInstalled);
              && (written.value.Workbook? <==> EndsWith(chosen, XlsxExtension) && openpyxlInstalled)
              && (written.value.Workbook? ==>
                    && written.value.filename == chosen
                    && |written.value.widths| == |Columns|
                    && forall c :: 0 <= c < |Columns| ==>
                         written.value.widths[c] == ColumnWidth(SheetColumns(frame)[c]))
              && (EndsWith(chosen, XlsxExtension) && !openpyxlInstalled ==>
                    written.value.filename == ReplaceAll(chosen, XlsxExtension, CsvExtension))
              && (!EndsWith(chosen, XlsxExtension) ==> written.value.filename == chosen)
    ensures written.Some? && filename.None? ==>
              written.value.filename == AutoName(timestamp, openpyxlInstalled)
  {
    if frame == [] {
      return None;
    }
    var name: string;
    if filename.None? {
      if openpyxlInstalled {
        name := MockPrefix + timestamp + XlsxExtension;
      } else {
        name := MockPrefix + timestamp + CsvExtension;
      }
    } else {
      name := filename.value;
    }
    if EndsWith(name, XlsxExtension) {
      if openpyxlInstalled {
        var widths := AutoWidths(SheetColumns(frame));
        written := Some(Workbook(name, frame, widths));
      } else {
        // the workbook writer cannot load its engine: fall back to CSV
        var csvName := ReplaceAll(name, XlsxExtension, CsvExtension);
        name := csvName;
        written := Some(CsvFile(name, frame));
      }
    } else {
      written := Some(CsvFile(name, frame));
    }
  }

  /** When the name has ".xlsx" only as its extension, the fallback file is the
      same name with ".csv" in its place. */
  lemma {:induction false} FallbackName(stem: string)
    requires forall i :: 0 <= i <= |stem| ==> !OccursAt(stem, ".xlsx", i)
    ensures ReplaceAll(stem + ".xlsx", ".xlsx", ".csv") == stem + ".csv"
  {
    var s := stem + ".xlsx";
    if stem == [] {
      assert s == ".xlsx";
      assert StartsWith(s, ".xlsx");
      assert s[5..] == [];
    } else {
      assert !StartsWith(s, ".xlsx") by {
        if |stem| >= 5 {
          assert !OccursAt(stem, ".xlsx", 0);
          assert s[..5] == stem[..5];
        } else {
          assert s[|stem|] == '.';
          assert ".xlsx"[|stem|] != '.';
        }
      }
      forall i | 0 <= i <= |stem[1..]|
        ensures !OccursAt(stem[1..], ".xlsx", i)
      {
        assert !OccursAt(stem, ".xlsx", i + 1);
        if i + 5 <= |stem[1..]| {
          assert stem[1..][i..i + 5] == stem[i + 1..i + 6];
        }
      }
      FallbackName(stem[1..]);
      assert s[1..] == stem[1..] + ".xlsx";
      assert [s[0]] + (stem[1..] + ".csv") == stem + ".csv";
    }
  }

  /** Up to its first '.', a renamed name starts as the original name does. */
  lemma {:induction false} KeptPrefix(s: string, k: nat)
    ensures var out := ReplaceAll(s, XlsxExtension, CsvExtension);
            k <= |out| && (forall j :: 0 <= j < k ==> out[j] != '.') ==>
              k <= |s| && s[..k] == out[..k]
  {
    var out := ReplaceAll(s, XlsxExtension, CsvExtension);
    if s == [] {
      assert out == [];
    } else if StartsWith(s, XlsxExtension) {
      assert out == CsvExtension + ReplaceAll(s[5..], XlsxExtension, CsvExtension);
      assert out[0] == '.';
    } else if k > 0 {
      var rest := ReplaceAll(s[1..], XlsxExtension, CsvExtension);
      assert out == [s[0]] + rest;
      assert forall j :: 0 <= j < |rest| ==> rest[j] == out[j + 1];
      KeptPrefix(s[1..], k - 1);
      assert k <= |s| ==> s[..k] == [s[0]] + s[1..][..k - 1];
      assert k <= |out| ==> out[..k] == [s[0]] + rest[..k - 1];
    }
  }

  /** An occurrence after a prefix is an occurrence in what follows it. */
  lemma OccursAfter(p: string, t: string, i: nat)
    ensures OccursAt(p + t, XlsxExtension, |p| + i) <==> OccursAt(t, XlsxExtension, i)
  {
    if |p| + i + 5 <= |p + t| {
      assert (p + t)[|p| + i..|p| + i + 5] == t[i..i + 5];
    }
  }

  /** A name that opens with ".csv" has no ".xlsx" in its first four places. */
  lemma NoXlsxInCsvHead(t: string, i: nat)
    requires i < 4
    ensures !OccursAt(CsvExtension + t, XlsxExtension, i)
  {
    var out := CsvExtension + t;
    assert out[i] == CsvExtension[i] && (i < 3 ==> out[i + 1] == CsvExtension[i + 1]);
    if i + 5 <= |out| {
      assert out[i..i + 5][0] == out[i] && out[i..i + 5][1] == out[i + 1];
    }
  }

  /** When the first character is kept, ".xlsx" at the head of the renamed
      name was already at the head of the original name. */
  lemma XlsxAtKeptHead(s: string)
    requires s != []
    ensures OccursAt([s[0]] + ReplaceAll(s[1..], XlsxExtension, CsvExtension), XlsxExtension, 0) ==>
              StartsWith(s, XlsxExtension)
  {
    var rest := ReplaceAll(s[1..], XlsxExtension, CsvExtension);
    var out := [s[0]] + rest;
    assert forall j :: 0 <= j < |rest| ==> rest[j] == out[j + 1];
    KeptPrefix(s[1..], 4);
    assert OccursAt(out, XlsxExtension, 0) ==>
             forall k :: 0 <= k < 5 ==> out[k] == out[..5][k] == XlsxExtension[k];
    assert 5 <= |s| && (forall k :: 0 <= k < 5 ==> s[k] == XlsxExtension[k]) ==>
             s[..5] == XlsxExtension;
  }

  /** After the fallback rename no ".xlsx" is left anywhere in the name. */
  lemma {:induction false} NoXlsxSurvives(s: string)
    ensures forall i :: 0 <= i <= |ReplaceAll(s, XlsxExtension, CsvExtension)| ==>
              !OccursAt(ReplaceAll(s, XlsxExtension, CsvExtension), XlsxExtension, i)
  {
    var out := ReplaceAll(s, XlsxExtension, CsvExtension);
    if s == [] {
      assert out == [];
    } else if StartsWith(s, XlsxExtension) {
      var rest := ReplaceAll(s[5..], XlsxExtension, CsvExtension);
      NoXlsxSurvives(s[5..]);
      assert out == CsvExtension + rest;
      forall i | 0 <= i <= |out|
        ensures !OccursAt(out, XlsxExtension, i)
      {
        if i < 4 {
          NoXlsxInCsvHead(rest, i);
        } else {
          OccursAfter(CsvExtension, rest, i - 4);
        }
      }
    } else {
      var rest := ReplaceAll(s[1..], XlsxExtension, CsvExtension);
      NoXlsxSurvives(s[1..]);
      assert out == [s[0]] + rest;
      forall i | 0 <= i <= |out|
        ensures !OccursAt(out, XlsxExtension, i)
      {
        if i == 0 {
          XlsxAtKeptHead(s);
        } else {
          OccursAfter([s[0]], rest, i - 1);
        }
      }
    }
  }

  /** The fallback rewrites every ".xlsx" in the name, not only the extension. */
  lemma FallbackRewritesEveryOccurrence()
    ensures ReplaceAll("a.xlsx.xlsx", XlsxExtension, CsvExtension) == "a.csv.csv"
  {
  }
}
