/** The CSV importer (import_dictionary.py, `import_csv_data`): it optionally
    clears the table, keeps the rows whose stripped fields are both non-empty,
    and inserts them in batches of a thousand into the same store the web
    endpoint reads. */
module Importer {
  import opened Text
  import Api

  /** One record of `csv.DictReader`, as its `word` and `definition` fields. */
  datatype CsvRow = CsvRow(word: string, definition: string)

  const BatchSize: nat := 1000

  /** `row['word'].strip()` and `row['definition'].strip()`. */
  function Cleaned(row: CsvRow): (r: (string, string))
    ensures |r.0| <= |row.word| && |r.1| <= |row.definition|
    ensures r.0 == [] <==> forall i :: 0 <= i < |row.word| ==> row.word[i] in PythonWhitespace
    ensures r.1 == [] <==> forall i :: 0 <= i < |row.definition| ==> row.definition[i] in PythonWhitespace
  {
    TrimSpec(row.word, PythonWhitespace);
    TrimSpec(row.definition, PythonWhitespace);
    (Trim(row.word, PythonWhitespace), Trim(row.definition, PythonWhitespace))
  }

  /** Both stripped fields are non-empty: each field holds a character that is not whitespace. */
  predicate Keeps(row: CsvRow)
    ensures Keeps(row) <==>
      (exists i :: 0 <= i < |row.word| && row.word[i] !in PythonWhitespace) &&
      (exists i :: 0 <= i < |row.definition| && row.definition[i] !in PythonWhitespace)
  {
    Cleaned(row).0 != "" && Cleaned(row).1 != ""
  }

  /** The rows that reach a batch, stripped, in file order. */
  function Kept(rows: seq<CsvRow>): (r: seq<(string, string)>)
    ensures |r| <= |rows|
  {
    if rows == [] then []
    else Kept(rows[..|rows| - 1]) + (if Keeps(rows[|rows| - 1]) then [Cleaned(rows[|rows| - 1])] else [])
  }

  /** What is kept is stripped, non-empty, and comes from an input row. */
  lemma {:induction false} KeptRows(rows: seq<CsvRow>)
    ensures forall p :: p in Kept(rows) ==> p.0 != "" && p.1 != ""
    ensures forall p :: p in Kept(rows) ==> exists i :: 0 <= i < |rows| && Keeps(rows[i]) && Cleaned(rows[i]) == p
    decreases |rows|
  {
    if rows != [] {
      var n := |rows| - 1;
      KeptRows(rows[..n]);
      forall p | p in Kept(rows) ensures exists i :: 0 <= i < |rows| && Keeps(rows[i]) && Cleaned(rows[i]) == p {
        if p in Kept(rows[..n]) {
          var i :| 0 <= i < n && Keeps(rows[..n][i]) && Cleaned(rows[..n][i]) == p;
          assert rows[i] == rows[..n][i];
        } else {
          assert Keeps(rows[n]) && Cleaned(rows[n]) == p;
        }
      }
    }
  }

  /** A single row is kept, stripped, exactly when neither field strips to
      nothing; a field strips to nothing when it holds only whitespace. */
  lemma KeptSingle(row: CsvRow)
    ensures Kept([row]) == if Keeps(row) then [Cleaned(row)] else []
    ensures Keeps(row) <==>
      (exists i :: 0 <= i < |row.word| && row.word[i] !in PythonWhitespace) &&
      (exists i :: 0 <= i < |row.definition| && row.definition[i] !in PythonWhitespace)
  {
    assert [row][..0] == [];
    TrimSpec(row.word, PythonWhitespace);
    TrimSpec(row.definition, PythonWhitespace);
  }

  /** Unicode spaces strip like ASCII ones: a definition of one ideographic
      space is dropped ... */
  lemma IdeographicSpaceIsDropped()
    ensures !Keeps(CsvRow("w", "\U{3000}"))
  {
    var s := "\U{3000}";
    assert s[0] in PythonWhitespace;
    assert TrimStart(s[1..], PythonWhitespace) == [];
    assert Trim(s, PythonWhitespace) == [];
  }

  /** ... and a thin space after a word is removed. */
  lemma ThinSpaceIsStripped()
    ensures Cleaned(CsvRow("cat\U{2009}", "d")) == ("cat", "d")
  {
    var w := "cat\U{2009}";
    assert w[0] !in PythonWhitespace;
    assert TrimStart(w, PythonWhitespace) == w;
    assert w[3] in PythonWhitespace && w[..3] == "cat";
    assert "cat"[2] !in PythonWhitespace;
    assert TrimEnd("cat", PythonWhitespace) == "cat";
    assert "d"[0] !in PythonWhitespace;
    assert TrimStart("d", PythonWhitespace) == "d";
  }

  /** Filtering is row by row: it keeps the file order. */
  lemma {:induction false} KeptAppend(a: seq<CsvRow>, b: seq<CsvRow>)
    ensures Kept(a + b) == Kept(a) + Kept(b)
    decreases |b|
  {
    if b == [] {
      assert a + b == a;
    } else {
      var n := |b| - 1;
      assert (a + b)[..|a + b| - 1] == a + b[..n];
      assert (a + b)[|a + b| - 1] == b[n];
      KeptAppend(a, b[..n]);
    }
  }

  lemma KeptStep(rows: seq<CsvRow>, i: nat)
    requires i < |rows|
    ensures Kept(rows[..i + 1]) == Kept(rows[..i]) + (if Keeps(rows[i]) then [Cleaned(rows[i])] else [])
  {
    assert rows[..i + 1][..i] == rows[..i];
  }

  // -------------------------------------------------------------- batches

  function Flatten<T>(parts: seq<seq<T>>): seq<T>
  {
    if parts == [] then [] else parts[0] + Flatten(parts[1..])
  }

  lemma {:induction false} FlattenSnoc<T>(parts: seq<seq<T>>, last: seq<T>)
    ensures Flatten(parts + [last]) == Flatten(parts) + last
    decreases |parts|
  {
    if parts == [] {
      assert Flatten([last]) == last + Flatten([]);
    } else {
      assert (parts + [last])[0] == parts[0] && (parts + [last])[1..] == parts[1..] + [last];
      FlattenSnoc(parts[1..], last);
    }
  }

  /** Consecutive pieces of `n` elements; only the last may be shorter. */
  function Chunks<T>(s: seq<T>, n: nat): (r: seq<seq<T>>)
    requires n > 0
    ensures r == [] <==> s == []
    ensures forall i :: 0 <= i < |r| ==> 0 < |r[i]| <= n
    decreases |s|
  {
    if s == [] then []
    else if |s| <= n then [s]
    else [s[..n]] + Chunks(s[n..], n)
  }

  /** How the importer cuts its kept rows: full batches of `n`, then one
      non-empty and possibly shorter batch. */
  ghost predicate BatchedBy<T>(parts: seq<seq<T>>, n: nat)
  {
    && (forall j :: 0 <= j < |parts| - 1 ==> |parts[j]| == n)
    && (parts != [] ==> 0 < |parts[|parts| - 1]| <= n)
  }

  lemma {:induction false} ChunksSpec<T>(s: seq<T>, n: nat)
    requires n > 0
    ensures Flatten(Chunks(s, n)) == s
    ensures BatchedBy(Chunks(s, n), n)
    decreases |s|
  {
    if s != [] && |s| > n {
      var rest := Chunks(s[n..], n);
      ChunksSpec(s[n..], n);
      var c := [s[..n]] + rest;
      assert c[1..] == rest;
      assert Flatten(c) == s[..n] + Flatten(rest);
      assert s == s[..n] + s[n..];
      ChunksAreFull(s[..n], rest, n);
    } else if s != [] {
      assert Flatten([s]) == s + Flatten([]);
    }
  }

  /** A full batch in front of a batching is a batching. */
  lemma ChunksAreFull<T>(first: seq<T>, rest: seq<seq<T>>, n: nat)
    requires |first| == n && rest != [] && BatchedBy(rest, n)
    ensures BatchedBy([first] + rest, n)
  {
    var c := [first] + rest;
    forall j | 0 <= j < |c| - 1 ensures |c[j]| == n {
      if j > 0 { assert c[j] == rest[j - 1]; }
    }
  }


  /** The cut is forced: any batching of `s` of that shape is `Chunks(s, n)`. */
  lemma {:induction false} BatchingIsChunks<T>(parts: seq<seq<T>>, s: seq<T>, n: nat)
    requires n > 0 && Flatten(parts) == s && BatchedBy(parts, n)
    ensures parts == Chunks(s, n)
    decreases |parts|
  {
    if |parts| == 1 {
      assert parts[1..] == [];
      assert Flatten(parts) == parts[0] + Flatten([]);
      assert parts == [parts[0]];
      assert s == parts[0];
    } else if |parts| > 1 {
      var tail := parts[1..];
      assert Flatten(tail) != [] by {
        assert tail == tail[..|tail| - 1] + [tail[|tail| - 1]];
        FlattenSnoc(tail[..|tail| - 1], tail[|tail| - 1]);
        assert tail[|tail| - 1] == parts[|parts| - 1];
      }
      assert |parts[0]| == n;
      assert s == parts[0] + Flatten(tail);
      assert s[..n] == parts[0] && s[n..] == Flatten(tail);
      assert BatchedBy(tail, n) by {
        forall j | 0 <= j < |tail| - 1 ensures |tail[j]| == n {
          assert tail[j] == parts[j + 1];
        }
      }
      BatchingIsChunks(tail, s[n..], n);
      assert parts == [parts[0]] + tail;
    }
  }

  // --------------------------------------------------------------- import

  /** `Declined`: the table was not empty and the answer was not "yes".
      `FileMissing`: the `FileNotFoundError` handler ran. `cleared` says
      whether `DELETE FROM words` ran first. */
  datatype ImportOutcome = Declined | FileMissing(cleared: bool) | Imported(cleared: bool)

  /** `cursor.executemany(INSERT ..., batch)`, `commit()` and
      `total_imported += len(batch)`. */
  method Flush(store: Api.Store, batches: seq<seq<(string, string)>>, batch: seq<(string, string)>, total: nat)
    returns (batches': seq<seq<(string, string)>>, total': nat)
    requires store.Valid()
    requires Api.WordPairs(store.words) == Flatten(batches) && total == |Flatten(batches)|
    modifies store
    ensures store.Valid()
    ensures batches' == batches + [batch]
    ensures Flatten(batches') == Flatten(batches) + batch
    ensures Api.WordPairs(store.words) == Flatten(batches') && total' == |Flatten(batches')|
    ensures store.searchStats == old(store.searchStats) && store.searchHistory == old(store.searchHistory)
    ensures store.favorites == old(store.favorites)
  {
    store.InsertWords(batch);
    FlattenSnoc(batches, batch);
    total' := total + |batch|;
    batches' := batches + [batch];
  }

  /** One pass of the `for` loop: a kept row joins the pending batch, and a
      full batch is flushed. */
  method Accept(store: Api.Store, batches: seq<seq<(string, string)>>, batch: seq<(string, string)>, total: nat, row: CsvRow)
    returns (batches': seq<seq<(string, string)>>, batch': seq<(string, string)>, total': nat)
    requires store.Valid()
    requires |batch| < BatchSize && forall j :: 0 <= j < |batches| ==> |batches[j]| == BatchSize
    requires Api.WordPairs(store.words) == Flatten(batches) && total == |Flatten(batches)|
    modifies store
    ensures store.Valid()
    ensures |batch'| < BatchSize && forall j :: 0 <= j < |batches'| ==> |batches'[j]| == BatchSize
    ensures Api.WordPairs(store.words) == Flatten(batches') && total' == |Flatten(batches')|
    ensures Flatten(batches') + batch' == Flatten(batches) + batch + (if Keeps(row) then [Cleaned(row)] else [])
    ensures store.searchStats == old(store.searchStats) && store.searchHistory == old(store.searchHistory)
    ensures store.favorites == old(store.favorites)
  {
    batches', batch', total' := batches, batch, total;
    var (word, definition) := Cleaned(row);
    if word != "" && definition != "" {
      batch' := batch + [(word, definition)];
      if |batch'| >= BatchSize {
        batches', total' := Flush(store, batches, batch', total);
        batch' := [];
        assert Flatten(batches') + batch' == Flatten(batches') ;
      }
    }
  }

  /** The `for` loop over the records and the final flush: the kept rows
      go into the (empty) table in batches, and `total` counts them. */
  method ImportRows(store: Api.Store, rows: seq<CsvRow>) returns (batches: seq<seq<(string, string)>>, total: nat)
    requires store.Valid() && store.words == []
    modifies store
    ensures store.Valid()
    ensures batches == Chunks(Kept(rows), BatchSize)
    ensures Flatten(batches) == Kept(rows) && BatchedBy(batches, BatchSize)
    ensures total == |Kept(rows)|
    ensures Api.WordPairs(store.words) == Kept(rows)
    ensures store.searchStats == old(store.searchStats) && store.searchHistory == old(store.searchHistory)
    ensures store.favorites == old(store.favorites)
  {
    batches, total := [], 0;
    var batch: seq<(string, string)> := [];
    var i := 0;
    while i < |rows|
      invariant 0 <= i <= |rows|
      invariant store.Valid()
      invariant Flatten(batches) + batch == Kept(rows[..i])
      invariant |batch| < BatchSize
      invariant forall j :: 0 <= j < |batches| ==> |batches[j]| == BatchSize
      invariant total == |Flatten(batches)|
      invariant Api.WordPairs(store.words) == Flatten(batches)
      invariant store.searchStats == old(store.searchStats) && store.searchHistory == old(store.searchHistory)
      invariant store.favorites == old(store.favorites)
    {
      KeptStep(rows, i);
      batches, batch, total := Accept(store, batches, batch, total, rows[i]);
      i := i + 1;
    }
    assert rows[..i] == rows;
    if batch != [] {
      batches, total := Flush(store, batches, batch, total);
    }
    BatchingIsChunks(batches, Kept(rows), BatchSize);
  }

  /** `import_csv_data`. `csv` is the file's records, `None` when the file
      does not exist; `answer` is what `input` returned. */
  method ImportCsvData(store: Api.Store, csv: Option<seq<CsvRow>>, answer: string)
    returns (outcome: ImportOutcome, batches: seq<seq<(string, string)>>, total: nat)
    requires store.Valid()
    modifies store
    ensures store.Valid()
    ensures |old(store.words)| > 0 && AsciiLower(answer) != "yes" ==>
      && outcome == Declined && batches == [] && total == 0
      && store.words == old(store.words) && store.searchStats == old(store.searchStats)
      && store.searchHistory == old(store.searchHistory) && store.favorites == old(store.favorites)
    ensures outcome != Declined ==> outcome.cleared == (|old(store.words)| > 0)
    ensures outcome != Declined && outcome.cleared ==>
      store.searchStats == map[] && store.searchHistory == [] && store.favorites == []
    ensures csv.None? && outcome != Declined ==>
      outcome.FileMissing? && store.words == [] && batches == [] && total == 0
    ensures csv.Some? && outcome != Declined ==>
      && outcome.Imported?
      && batches == Chunks(Kept(csv.value), BatchSize)
      && total == |Kept(csv.value)|
      && Api.WordPairs(store.words) == Kept(csv.value)
  {
    batches, total := [], 0;
    var count := |store.words|;
    var cleared := false;
    if count > 0 {
      if AsciiLower(answer) != "yes" {
        return Declined, batches, total;
      }
      store.ClearWords();
      cleared := true;
    }
    if csv.None? {
      return FileMissing(cleared), batches, total;
    }
    batches, total := ImportRows(store, csv.value);
    outcome := Imported(cleared);
  }
}
