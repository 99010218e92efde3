/** The dictionary's JSON endpoint: four tables and one handler per action.
    Each SQL statement a handler issues is a function over the tables; each
    handler is a method on the store that runs as one atomic step. */
module Api {
  import opened Text
  import opened Sequences

  // ---------------------------------------------------------------- rows

  /** A row of `words`. */
  datatype WordRow = WordRow(id: int, word: string, definition: string)

  /** The `search_stats` row of one word (the key of the map is `word_id`). */
  datatype Stat = Stat(count: nat, lastSearched: int)

  /** A row of `search_history`. */
  datatype HistoryEntry = HistoryEntry(wordId: int, searchedAt: int, ip: string)

  /** A row of `favorites`. */
  datatype Favorite = Favorite(wordId: int, sessionId: string, createdAt: int)

  /** The `$_SERVER` entries `getUserIP` consults. */
  datatype ServerVars = ServerVars(clientIp: Option<string>, forwardedFor: Option<string>, remoteAddr: string)

  /** An item of the `suggestions` and `favorites` lists. */
  datatype Entry = Entry(id: int, word: string, definition: string)

  /** The JSON object a handler echoes. `Aborted` stands for an uncaught
      database exception: the script dies and no JSON object is written. */
  datatype Reply =
    | Failure(message: string)
    | Done(message: string)
    | Suggestions(suggestions: seq<Entry>)
    | WordDetail(word: string, definition: string, id: int, searchCount: nat, lastSearched: int)
    | RandomWord(word: string, definition: string, id: int)
    | WordList(words: seq<string>)
    | FavoriteList(favorites: seq<Entry>)
    | FavoriteStatus(isFavorite: bool)
    | Statistics(totalSearches: nat, todaySearches: nat, favoritesCount: nat, totalWords: nat)
    | Aborted
  {
    /** The `success` field of the JSON object. */
    predicate Success() { !Failure? && !Aborted? }
  }

  const SearchLimit: nat := 10
  const RecentLimit: nat := 20
  const DefaultRandomCount: int := 6
  const SecondsPerDay: int := 86400

  // ------------------------------------------------------------ getUserIP

  /** `!empty($_SERVER[...])`: set, and neither "" nor "0". */
  predicate Present(h: Option<string>)
    ensures Present(h) <==> h.Some? && h.value != "" && h.value != "0"
  {
    h.Some? && !PhpEmpty(h.value)
  }

  function GetUserIP(server: ServerVars): (ip: string)
    ensures Present(server.clientIp) ==> ip == server.clientIp.value
    ensures !Present(server.clientIp) && Present(server.forwardedFor) ==> ip == server.forwardedFor.value
    ensures !Present(server.clientIp) && !Present(server.forwardedFor) ==> ip == server.remoteAddr
  {
    if Present(server.clientIp) then server.clientIp.value
    else if Present(server.forwardedFor) then server.forwardedFor.value
    else server.remoteAddr
  }

  /** The first candidate that is present, else the fallback. */
  function FirstPresent(candidates: seq<Option<string>>, fallback: string): string
  {
    if candidates == [] then fallback
    else if Present(candidates[0]) then candidates[0].value
    else FirstPresent(candidates[1..], fallback)
  }

  lemma UserIpIsFirstPresent(server: ServerVars)
    ensures GetUserIP(server) == FirstPresent([server.clientIp, server.forwardedFor], server.remoteAddr)
  {
    var c := [server.clientIp, server.forwardedFor];
    assert c[1..] == [server.forwardedFor];
    assert c[1..][1..] == [];
    assert FirstPresent(c[1..], server.remoteAddr) ==
      if Present(server.forwardedFor) then server.forwardedFor.value else server.remoteAddr;
  }

  // ---------------------------------------------------------------- LIKE

  /** MySQL's `LIKE`: `%` matches any run of characters, `_` any one
      character, and a backslash makes the next character literal. */
  predicate Like(pattern: string, text: string)
    ensures NoWildcards(pattern) ==> (Like(pattern, text) <==> text == pattern)
    decreases |pattern| + |text|
  {
    if pattern == [] then text == []
    else if pattern[0] == '%' then Like(pattern[1..], text) || (text != [] && Like(pattern, text[1..]))
    else if pattern[0] == '\\' && |pattern| >= 2 then
      text != [] && text[0] == pattern[1] && Like(pattern[2..], text[1..])
    else if pattern[0] == '_' then text != [] && Like(pattern[1..], text[1..])
    else text != [] && text[0] == pattern[0] && Like(pattern[1..], text[1..])
  }

  predicate NoWildcards(q: string)
  {
    forall i :: 0 <= i < |q| ==> q[i] != '%' && q[i] != '_' && q[i] != '\\'
  }

  lemma {:induction false} LikeTrailingPercent(text: string)
    ensures Like("%", text)
    decreases |text|
  {
    assert "%"[1..] == "";
    if text != [] {
      LikeTrailingPercent(text[1..]);
    }
  }

  /** Without wildcard characters in `q`, `word LIKE q%` is a prefix test. */
  lemma {:induction false} LikeIsPrefix(q: string, text: string)
    requires NoWildcards(q)
    ensures Like(q + "%", text) <==> q <= text
    decreases |q|
  {
    if q == [] {
      assert q + "%" == "%";
      LikeTrailingPercent(text);
    } else {
      var p := q + "%";
      assert p[0] == q[0] && p[1..] == q[1..] + "%";
      if text != [] {
        LikeIsPrefix(q[1..], text[1..]);
      }
    }
  }

  /** The query text is not escaped: "_" matches every non-empty word,
      though it is a prefix of none of the letters. */
  lemma UnderscoreMatchesAnyWord(c: char)
    requires c != '_'
    ensures Like("_" + "%", [c]) && !("_" <= [c])
  {
    var p := "_" + "%";
    assert p[1..] == "%" && p[0] == '_';
    assert [c][1..] == "";
    LikeTrailingPercent("");
  }

  // --------------------------------------------------------- word lookups

  function IdsOf(words: seq<WordRow>): set<int>
  {
    set w | w in words :: w.id
  }

  ghost predicate IdsUnique(words: seq<WordRow>)
  {
    forall i, j :: 0 <= i < j < |words| ==> words[i].id != words[j].id
  }

  /** `SELECT ... FROM words WHERE word = :word LIMIT 1`. */
  function FindWord(words: seq<WordRow>, word: string): (r: Option<WordRow>)
    ensures r.Some? <==> exists i :: 0 <= i < |words| && words[i].word == word
    ensures r.Some? ==> r.value in words && r.value.word == word
  {
    if words == [] then None
    else if words[0].word == word then Some(words[0])
    else
      var r := FindWord(words[1..], word);
      assert forall i :: 1 <= i < |words| ==> words[i] == words[1..][i - 1];
      r
  }

  /** The row whose primary key is `id`. */
  function FindById(words: seq<WordRow>, id: int): (r: Option<WordRow>)
    ensures r.Some? <==> id in IdsOf(words)
    ensures r.Some? ==> r.value in words && r.value.id == id
  {
    if words == [] then None
    else if words[0].id == id then Some(words[0])
    else
      var r := FindById(words[1..], id);
      assert IdsOf(words) == {words[0].id} + IdsOf(words[1..]) by {
        assert forall w :: w in words <==> w == words[0] || w in words[1..];
      }
      r
  }

  lemma FindByIdUnique(words: seq<WordRow>, w: WordRow)
    requires IdsUnique(words) && w in words
    ensures FindById(words, w.id) == Some(w)
  {
    var r := FindById(words, w.id).value;
    var i :| 0 <= i < |words| && words[i] == r;
    var j :| 0 <= j < |words| && words[j] == w;
    assert i == j;
  }

  /** The word texts, in table order. */
  function Texts(rows: seq<WordRow>): (r: seq<string>)
    ensures |r| == |rows|
    ensures forall i :: 0 <= i < |rows| ==> r[i] == rows[i].word
  {
    seq(|rows|, i requires 0 <= i < |rows| => rows[i].word)
  }

  lemma TextsAppend(a: seq<WordRow>, b: seq<WordRow>)
    ensures Texts(a + b) == Texts(a) + Texts(b)
  {
  }

  /** The table starting at row `offset` (modulo its size) and wrapping
      around: the order `ORDER BY RAND()` is taken to produce. */
  function Rotate(rows: seq<WordRow>, offset: nat): (r: seq<WordRow>)
    ensures |r| == |rows|
  {
    if rows == [] then [] else rows[offset % |rows|..] + rows[..offset % |rows|]
  }

  /** A rotation lists every row once. */
  lemma RotationKeepsTexts(rows: seq<WordRow>, offset: nat)
    ensures multiset(Texts(Rotate(rows, offset))) == multiset(Texts(rows))
  {
    if rows != [] {
      var o := offset % |rows|;
      assert rows == rows[..o] + rows[o..];
      TextsAppend(rows[..o], rows[o..]);
      TextsAppend(rows[o..], rows[..o]);
    }
  }

  /** A prefix of the rows holds no text more often than the rows do. */
  lemma TakeTexts(rows: seq<WordRow>, n: nat)
    ensures multiset(Texts(Take(rows, n))) <= multiset(Texts(rows))
  {
    var t := Take(rows, n);
    assert rows == t + rows[|t|..];
    TextsAppend(t, rows[|t|..]);
  }

  /** `count` texts of a rotation: as many as there are, none more often
      than in the table. */
  lemma RotatedPrefixTexts(rows: seq<WordRow>, offset: nat, count: nat)
    ensures var r := Texts(Take(Rotate(rows, offset), count));
      && |r| == Min(count, |rows|)
      && multiset(r) <= multiset(Texts(rows))
  {
    RotationKeepsTexts(rows, offset);
    TakeTexts(Rotate(rows, offset), count);
  }

  /** The (word, definition) pairs, in table order. */
  function WordPairs(rows: seq<WordRow>): (r: seq<(string, string)>)
    ensures |r| == |rows|
    ensures forall i :: 0 <= i < |rows| ==> r[i] == (rows[i].word, rows[i].definition)
  {
    seq(|rows|, i requires 0 <= i < |rows| => (rows[i].word, rows[i].definition))
  }

  /** How a row is listed in `suggestions` and `favorites`. */
  function Summary(row: WordRow): (e: Entry)
    ensures e.id == row.id && e.word == row.word
    ensures 3 <= |e.definition| <= PreviewLength + 3 && e.definition[..|e.definition| - 3] <= row.definition
  {
    Entry(row.id, row.word, Preview(row.definition))
  }

  lemma SummaryTruncates(row: WordRow)
    ensures Summary(row).id == row.id && Summary(row).word == row.word
    ensures Summary(row).definition == Take(row.definition, PreviewLength) + "..."
    ensures |Summary(row).definition| <= PreviewLength + 3
  {
  }

  // --------------------------------------------------------------- search

  /** `SELECT ... FROM words WHERE word LIKE :q%` in table order. */
  function Matching(words: seq<WordRow>, q: string): (r: seq<WordRow>)
    ensures |r| <= |words|
    ensures forall w :: w in r <==> w in words && Like(q + "%", w.word)
  {
    if words == [] then []
    else
      assert forall w :: w in words <==> w == words[0] || w in words[1..];
      (if Like(q + "%", words[0].word) then [words[0]] else []) + Matching(words[1..], q)
  }

  /** `ORDER BY word ASC`. */
  function WordBefore(a: WordRow, b: WordRow): bool
  {
    LexLe(a.word, b.word)
  }

  lemma WordBeforeIsOrder()
    ensures Total(WordBefore) && Transitive(WordBefore)
  {
    forall a: WordRow, b: WordRow ensures WordBefore(a, b) || WordBefore(b, a) {
      LexLeTotal(a.word, b.word);
    }
    forall a: WordRow, b: WordRow, c: WordRow | WordBefore(a, b) && WordBefore(b, c)
      ensures WordBefore(a, c)
    {
      LexLeTransitive(a.word, b.word, c.word);
    }
  }

  /** The rows the `search` query returns: matches, sorted, at most ten. */
  function SearchRows(words: seq<WordRow>, q: string): (r: seq<WordRow>)
    ensures |r| <= SearchLimit && |r| <= |words|
  {
    Take(Sort(Matching(words, q), WordBefore), SearchLimit)
  }

  /** The rows are matches, in alphabetical order, ten of them unless
      fewer match. */
  lemma SearchRowsSpec(words: seq<WordRow>, q: string)
    ensures var rows := SearchRows(words, q);
      && |rows| == Min(SearchLimit, |Matching(words, q)|)
      && rows == Sort(Matching(words, q), WordBefore)[..|rows|]
      && multiset(rows) <= multiset(Matching(words, q))
      && (forall r :: r in rows ==> r in words && Like(q + "%", r.word))
      && SortedPairwise(rows, WordBefore)
  {
    var sorted := Sort(Matching(words, q), WordBefore);
    var rows := SearchRows(words, q);
    WordBeforeIsOrder();
    SortSorted(Matching(words, q), WordBefore);
    SortedIsPairwise(sorted, WordBefore);
    assert rows == sorted[..|rows|];
    TakeMultiset(sorted, SearchLimit);
    forall r | r in rows ensures r in words && Like(q + "%", r.word) {
      assert r in multiset(sorted);
    }
  }

  /** `LIMIT 10` keeps the alphabetically first matches: a match left out
      sorts no earlier than every row returned. */
  lemma SearchRowsFirst(words: seq<WordRow>, q: string, w: WordRow, r: WordRow)
    requires w in words && Like(q + "%", w.word)
    requires w !in SearchRows(words, q) && r in SearchRows(words, q)
    ensures LexLe(r.word, w.word)
  {
    var sorted := Sort(Matching(words, q), WordBefore);
    var rows := SearchRows(words, q);
    WordBeforeIsOrder();
    SortSorted(Matching(words, q), WordBefore);
    SortedIsPairwise(sorted, WordBefore);
    assert w in multiset(sorted);
    assert w !in multiset(rows);
    TakeKeepsSmallest(sorted, |rows|, WordBefore, w, r);
  }

  // ------------------------------------------------------------- favorites

  function PairOf(f: Favorite): (int, string) { (f.wordId, f.sessionId) }

  /** The `(word_id, session_id)` pairs of the favourites table. */
  function PairsOf(favs: seq<Favorite>): set<(int, string)>
  {
    set f | f in favs :: PairOf(f)
  }

  /** The unique key `unique_favorite (word_id, session_id)`. */
  ghost predicate UniquePairs(favs: seq<Favorite>)
  {
    forall i, j :: 0 <= i < j < |favs| ==> PairOf(favs[i]) != PairOf(favs[j])
  }

  lemma UniquePairsTail(favs: seq<Favorite>)
    requires UniquePairs(favs) && favs != []
    ensures UniquePairs(favs[1..])
    ensures forall f :: f in favs[1..] ==> PairOf(f) != PairOf(favs[0])
  {
    forall i, j | 0 <= i < j < |favs[1..]| ensures PairOf(favs[1..][i]) != PairOf(favs[1..][j]) {
      assert favs[1..][i] == favs[i + 1] && favs[1..][j] == favs[j + 1];
    }
    forall f | f in favs[1..] ensures PairOf(f) != PairOf(favs[0]) {
      var j :| 0 <= j < |favs[1..]| && favs[1..][j] == f;
      assert favs[j + 1] == f;
    }
  }

  lemma UniquePairsCons(f: Favorite, rest: seq<Favorite>)
    requires UniquePairs(rest) && PairOf(f) !in PairsOf(rest)
    ensures UniquePairs([f] + rest)
  {
    var r := [f] + rest;
    forall i, j | 0 <= i < j < |r| ensures PairOf(r[i]) != PairOf(r[j]) {
      assert r[j] == rest[j - 1];
      if i > 0 {
        assert r[i] == rest[i - 1];
      } else {
        assert rest[j - 1] in rest;
      }
    }
  }

  /** `DELETE FROM favorites WHERE word_id = :wordId AND session_id = :sessionId`. */
  function WithoutPair(favs: seq<Favorite>, pair: (int, string)): (r: seq<Favorite>)
    ensures forall f :: f in r <==> f in favs && PairOf(f) != pair
  {
    if favs == [] then []
    else
      var rest := WithoutPair(favs[1..], pair);
      assert forall f :: f in favs <==> f == favs[0] || f in favs[1..];
      if PairOf(favs[0]) == pair then rest else [favs[0]] + rest
  }

  /** The delete takes exactly that pair out, and keeps the key unique. */
  lemma {:induction false} WithoutPairSpec(favs: seq<Favorite>, pair: (int, string))
    ensures PairsOf(WithoutPair(favs, pair)) == PairsOf(favs) - {pair}
    ensures UniquePairs(favs) ==> UniquePairs(WithoutPair(favs, pair))
    decreases |favs|
  {
    if favs != [] && PairOf(favs[0]) != pair {
      var rest := WithoutPair(favs[1..], pair);
      if UniquePairs(favs) {
        UniquePairsTail(favs);
        WithoutPairSpec(favs[1..], pair);
        UniquePairsCons(favs[0], rest);
      }
    } else if favs != [] {
      WithoutPairSpec(favs[1..], pair);
      if UniquePairs(favs) { UniquePairsTail(favs); }
    }
  }

  datatype FavoriteRow = FavoriteRow(word: WordRow, createdAt: int)

  /** The joined rows of one session, in favourites-table order. */
  function SessionFavorites(words: seq<WordRow>, favs: seq<Favorite>, sessionId: string): (r: seq<FavoriteRow>)
    ensures |r| <= |favs|
    ensures forall row :: row in r ==>
      row.word in words && Favorite(row.word.id, sessionId, row.createdAt) in favs
  {
    if favs == [] then []
    else
      var f := favs[0];
      var found := FindById(words, f.wordId);
      var rest := SessionFavorites(words, favs[1..], sessionId);
      (if f.sessionId == sessionId && found.Some? then [FavoriteRow(found.value, f.createdAt)] else []) + rest
  }

  lemma {:induction false} SessionFavoritesComplete(words: seq<WordRow>, favs: seq<Favorite>, sessionId: string, w: WordRow, at: int)
    requires IdsUnique(words) && w in words && Favorite(w.id, sessionId, at) in favs
    ensures FavoriteRow(w, at) in SessionFavorites(words, favs, sessionId)
  {
    FindByIdUnique(words, w);
    if favs[0] != Favorite(w.id, sessionId, at) {
      SessionFavoritesComplete(words, favs[1..], sessionId, w, at);
    }
  }

  /** `ORDER BY f.created_at DESC`. */
  function NewerFirst(a: FavoriteRow, b: FavoriteRow): bool
  {
    a.createdAt >= b.createdAt
  }

  /** The rows the `getFavorites` query returns. */
  function FavoriteRows(words: seq<WordRow>, favs: seq<Favorite>, sessionId: string): (r: seq<FavoriteRow>)
    ensures |r| <= |favs|
  {
    Sort(SessionFavorites(words, favs, sessionId), NewerFirst)
  }

  function FavoriteWordId(row: FavoriteRow): int { row.word.id }

  /** Under the unique key, no word appears twice among a session's joined rows. */
  lemma {:induction false} SessionFavoritesDistinct(words: seq<WordRow>, favs: seq<Favorite>, sessionId: string)
    requires UniquePairs(favs)
    ensures DistinctKeys(SessionFavorites(words, favs, sessionId), FavoriteWordId)
  {
    if favs != [] {
      var f := favs[0];
      var found := FindById(words, f.wordId);
      var rest := SessionFavorites(words, favs[1..], sessionId);
      UniquePairsTail(favs);
      SessionFavoritesDistinct(words, favs[1..], sessionId);
      if f.sessionId == sessionId && found.Some? {
        var r := [FavoriteRow(found.value, f.createdAt)] + rest;
        forall i, j | 0 <= i < j < |r| ensures FavoriteWordId(r[i]) != FavoriteWordId(r[j]) {
          assert r[j] == rest[j - 1];
          if i > 0 {
            assert r[i] == rest[i - 1];
          } else {
            assert rest[j - 1] in rest;
            assert Favorite(rest[j - 1].word.id, sessionId, rest[j - 1].createdAt) in favs[1..];
          }
        }
      }
    }
  }

  lemma FavoriteRowsSpec(words: seq<WordRow>, favs: seq<Favorite>, sessionId: string)
    requires IdsUnique(words)
    ensures var rows := FavoriteRows(words, favs, sessionId);
      && SortedPairwise(rows, NewerFirst)
      && (forall row :: row in rows <==>
           row.word in words && Favorite(row.word.id, sessionId, row.createdAt) in favs)
      && multiset(rows) == multiset(SessionFavorites(words, favs, sessionId))
      && (UniquePairs(favs) ==> DistinctKeys(rows, FavoriteWordId))
  {
    var rows := FavoriteRows(words, favs, sessionId);
    var joined := SessionFavorites(words, favs, sessionId);
    assert Total(NewerFirst) && Transitive(NewerFirst);
    SortSorted(joined, NewerFirst);
    SortedIsPairwise(rows, NewerFirst);
    forall row: FavoriteRow ensures row in rows <==> row in joined {
      assert row in rows <==> row in multiset(rows);
      assert row in joined <==> row in multiset(joined);
    }
    forall row: FavoriteRow | row.word in words && Favorite(row.word.id, sessionId, row.createdAt) in favs
      ensures row in joined
    {
      SessionFavoritesComplete(words, favs, sessionId, row.word, row.createdAt);
    }
    if UniquePairs(favs) {
      SessionFavoritesDistinct(words, favs, sessionId);
      SortKeepsKeysDistinct(joined, NewerFirst, FavoriteWordId);
    }
  }

  // ------------------------------------------------------- recent searches

  /** The text of the word a history row refers to (the inner join). */
  function TextOf(words: seq<WordRow>, e: HistoryEntry): Option<string>
  {
    match FindById(words, e.wordId)
    case Some(w) => Some(w.word)
    case None => None
  }

  /** A row of `SELECT w.word, MAX(h.searched_at) ... GROUP BY w.word`. */
  datatype Searched = Searched(word: string, lastSearch: int)

  function SearchedWord(g: Searched): string { g.word }

  /** Folds one more search of `text` at time `at` into the groups. */
  function Bump(groups: seq<Searched>, text: string, at: int): (r: seq<Searched>)
    ensures |groups| <= |r| <= |groups| + 1
  {
    if groups == [] then [Searched(text, at)]
    else if groups[0].word == text then [Searched(text, Max(groups[0].lastSearch, at))] + groups[1..]
    else [groups[0]] + Bump(groups[1..], text, at)
  }

  /** One group per distinct word text that was searched, holding the
      latest time it was searched; groups appear in order of first search. */
  function Groups(words: seq<WordRow>, history: seq<HistoryEntry>): (r: seq<Searched>)
    ensures |r| <= |history|
  {
    if history == [] then []
    else
      var earlier := Groups(words, history[..|history| - 1]);
      var e := history[|history| - 1];
      match TextOf(words, e)
      case Some(t) => Bump(earlier, t, e.searchedAt)
      case None => earlier
  }

  /** Some group for `text` is at least as late as `at`. */
  ghost predicate Covers(groups: seq<Searched>, text: string, at: int)
  {
    exists g :: g in groups && g.word == text && at <= g.lastSearch
  }

  /** `g`'s time is the time of a search of `g.word`. */
  ghost predicate Attained(words: seq<WordRow>, history: seq<HistoryEntry>, g: Searched)
  {
    exists k :: 0 <= k < |history| && TextOf(words, history[k]) == Some(g.word) && history[k].searchedAt == g.lastSearch
  }

  lemma DistinctCons(x: Searched, s: seq<Searched>)
    ensures DistinctKeys([x] + s, SearchedWord) <==>
      DistinctKeys(s, SearchedWord) && forall g :: g in s ==> g.word != x.word
  {
    var r := [x] + s;
    if DistinctKeys(r, SearchedWord) {
      forall i, j | 0 <= i < j < |s| ensures SearchedWord(s[i]) != SearchedWord(s[j]) {
        assert r[i + 1] == s[i] && r[j + 1] == s[j];
      }
      forall g | g in s ensures g.word != x.word {
        var j :| 0 <= j < |s| && s[j] == g;
        assert r[j + 1] == g;
        assert SearchedWord(r[0]) != SearchedWord(r[j + 1]);
      }
    }
    if DistinctKeys(s, SearchedWord) && forall g :: g in s ==> g.word != x.word {
      forall i, j | 0 <= i < j < |r| ensures SearchedWord(r[i]) != SearchedWord(r[j]) {
        assert r[j] == s[j - 1];
        if i > 0 { assert r[i] == s[i - 1]; } else { assert s[j - 1] in s; }
      }
    }
  }

  /** Every group after a bump was there before, or is the new search. */
  lemma {:induction false} BumpOrigin(groups: seq<Searched>, text: string, at: int)
    ensures forall g :: g in Bump(groups, text, at) ==> g in groups || g == Searched(text, at)
  {
    if groups != [] {
      var tail := groups[1..];
      assert forall g :: g in tail ==> g in groups;
      if groups[0].word != text {
        BumpOrigin(tail, text, at);
      }
    }
  }

  /** A bump loses no search: every old group, and the new search, is
      matched by a group at least as late. */
  lemma {:induction false} BumpCovers(groups: seq<Searched>, text: string, at: int)
    ensures forall g :: g in groups ==> Covers(Bump(groups, text, at), g.word, g.lastSearch)
    ensures Covers(Bump(groups, text, at), text, at)
  {
    var r := Bump(groups, text, at);
    if groups == [] {
      assert r[0] == Searched(text, at);
    } else {
      var g0 := groups[0];
      var tail := groups[1..];
      assert forall g :: g in groups <==> g == g0 || g in tail;
      if g0.word == text {
        var h := Searched(text, Max(g0.lastSearch, at));
        assert r == [h] + tail;
        assert h in r;
        forall g | g in groups ensures Covers(r, g.word, g.lastSearch) {
          if g != g0 { assert g in r; }
        }
      } else {
        var rest := Bump(tail, text, at);
        BumpCovers(tail, text, at);
        assert r == [g0] + rest;
        forall g | g in groups ensures Covers(r, g.word, g.lastSearch) {
          if g == g0 {
            assert g0 in r;
          } else {
            var w :| w in rest && w.word == g.word && g.lastSearch <= w.lastSearch;
            assert w in r;
          }
        }
        var w :| w in rest && w.word == text && at <= w.lastSearch;
        assert w in r;
      }
    }
  }

  lemma {:induction false} BumpDistinct(groups: seq<Searched>, text: string, at: int)
    requires DistinctKeys(groups, SearchedWord)
    ensures DistinctKeys(Bump(groups, text, at), SearchedWord)
  {
    if groups != [] {
      var g0 := groups[0];
      var tail := groups[1..];
      assert groups == [g0] + tail;
      DistinctCons(g0, tail);
      if g0.word == text {
        DistinctCons(Searched(text, Max(g0.lastSearch, at)), tail);
      } else {
        BumpDistinct(tail, text, at);
        BumpOrigin(tail, text, at);
        DistinctCons(g0, Bump(tail, text, at));
      }
    }
  }

  lemma {:induction false} GroupsDistinct(words: seq<WordRow>, history: seq<HistoryEntry>)
    ensures DistinctKeys(Groups(words, history), SearchedWord)
    decreases |history|
  {
    if history != [] {
      var prefix := history[..|history| - 1];
      GroupsDistinct(words, prefix);
      var e := history[|history| - 1];
      if TextOf(words, e).Some? {
        BumpDistinct(Groups(words, prefix), TextOf(words, e).value, e.searchedAt);
      }
    }
  }

  /** Each group's time is the time of one of its word's searches. */
  lemma {:induction false} GroupsAttained(words: seq<WordRow>, history: seq<HistoryEntry>)
    ensures forall g :: g in Groups(words, history) ==> Attained(words, history, g)
    decreases |history|
  {
    if history != [] {
      var n := |history| - 1;
      var prefix := history[..n];
      var e := history[n];
      var earlier := Groups(words, prefix);
      GroupsAttained(words, prefix);
      forall g | g in earlier ensures Attained(words, history, g) {
        var k :| 0 <= k < |prefix| && TextOf(words, prefix[k]) == Some(g.word) && prefix[k].searchedAt == g.lastSearch;
        assert history[k] == prefix[k];
      }
      if TextOf(words, e).Some? {
        var t := TextOf(words, e).value;
        BumpOrigin(earlier, t, e.searchedAt);
        forall g | g in Groups(words, history) ensures Attained(words, history, g) {
          if g !in earlier {
            assert g == Searched(t, e.searchedAt);
            assert TextOf(words, history[n]) == Some(g.word);
          }
        }
      }
    }
  }

  /** What a group list covers, the list bumped by one more search still covers. */
  lemma BumpKeeps(groups: seq<Searched>, text: string, at: int, other: string, when: int)
    requires Covers(groups, other, when)
    ensures Covers(Bump(groups, text, at), other, when)
  {
    var g :| g in groups && g.word == other && when <= g.lastSearch;
    BumpCovers(groups, text, at);
    var w :| w in Bump(groups, text, at) && w.word == g.word && g.lastSearch <= w.lastSearch;
  }

  /** Every search of an existing word is matched by a group for that word
      at least as late. */
  lemma {:induction false} GroupsCover(words: seq<WordRow>, history: seq<HistoryEntry>)
    ensures forall k :: 0 <= k < |history| && TextOf(words, history[k]).Some? ==>
      Covers(Groups(words, history), TextOf(words, history[k]).value, history[k].searchedAt)
  {
    forall k | 0 <= k < |history| && TextOf(words, history[k]).Some?
      ensures Covers(Groups(words, history), TextOf(words, history[k]).value, history[k].searchedAt)
    {
      GroupsCoverEntry(words, history, k);
    }
  }
  /** The single-entry form of `GroupsCover`, by induction on the history's length. */
  lemma {:induction false} GroupsCoverEntry(words: seq<WordRow>, history: seq<HistoryEntry>, k: nat)
    requires k < |history| && TextOf(words, history[k]).Some?
    ensures Covers(Groups(words, history), TextOf(words, history[k]).value, history[k].searchedAt)
    decreases |history|
  {
    var n := |history| - 1;
    var prefix := history[..n];
    var e := history[n];
    var earlier := Groups(words, prefix);
    if k == n {
      BumpCovers(earlier, TextOf(words, e).value, e.searchedAt);
    } else {
      assert history[k] == prefix[k];
      GroupsCoverEntry(words, prefix, k);
      if TextOf(words, e).Some? {
        BumpKeeps(earlier, TextOf(words, e).value, e.searchedAt, TextOf(words, prefix[k]).value, prefix[k].searchedAt);
      }
    }
  }


  /** `ORDER BY last_search DESC`. */
  function LaterFirst(a: Searched, b: Searched): bool
  {
    a.lastSearch >= b.lastSearch
  }

  /** The rows the `recentSearches` query returns. */
  function RecentRows(words: seq<WordRow>, history: seq<HistoryEntry>): (r: seq<Searched>)
    ensures |r| <= RecentLimit && |r| <= |history|
  {
    Take(Sort(Groups(words, history), LaterFirst), RecentLimit)
  }

  /** In a sequence with distinct keys, one key means one element. */
  lemma SameKeySameGroup(groups: seq<Searched>, a: Searched, b: Searched)
    requires DistinctKeys(groups, SearchedWord) && a in groups && b in groups && a.word == b.word
    ensures a == b
  {
    var i :| 0 <= i < |groups| && groups[i] == a;
    var j :| 0 <= j < |groups| && groups[j] == b;
    assert SearchedWord(groups[i]) == SearchedWord(groups[j]);
  }

  lemma RecentRowsShape(words: seq<WordRow>, history: seq<HistoryEntry>)
    ensures var rows := RecentRows(words, history);
      && |rows| == Min(RecentLimit, |Groups(words, history)|)
      && DistinctKeys(rows, SearchedWord)
      && SortedPairwise(rows, LaterFirst)
      && (forall g :: g in rows ==> g in Groups(words, history) && Attained(words, history, g))
  {
    var groups := Groups(words, history);
    var sorted := Sort(groups, LaterFirst);
    var rows := RecentRows(words, history);
    GroupsDistinct(words, history);
    GroupsAttained(words, history);
    assert Total(LaterFirst) && Transitive(LaterFirst);
    SortSorted(groups, LaterFirst);
    SortedIsPairwise(sorted, LaterFirst);
    SortKeepsKeysDistinct(groups, LaterFirst, SearchedWord);
    assert rows == sorted[..|rows|];
    forall g | g in rows ensures g in groups {
      assert g in sorted;
      assert g in multiset(sorted);
    }
  }

  /** A listed word carries the time of its latest search. */
  lemma RecentRowsLatest(words: seq<WordRow>, history: seq<HistoryEntry>)
    ensures forall g, k ::
      (g in RecentRows(words, history) && 0 <= k < |history| && TextOf(words, history[k]) == Some(g.word)) ==>
      history[k].searchedAt <= g.lastSearch
  {
    var groups := Groups(words, history);
    RecentRowsShape(words, history);
    GroupsCover(words, history);
    GroupsDistinct(words, history);
    forall g, k | g in RecentRows(words, history) && 0 <= k < |history| && TextOf(words, history[k]) == Some(g.word)
      ensures history[k].searchedAt <= g.lastSearch
    {
      var c :| c in groups && c.word == g.word && history[k].searchedAt <= c.lastSearch;
      SameKeySameGroup(groups, c, g);
    }
  }

  /** A searched word missing from the list was crowded out: the list is
      full, and every listed word was searched no earlier. */
  lemma RecentRowsComplete(words: seq<WordRow>, history: seq<HistoryEntry>)
    ensures var rows := RecentRows(words, history);
      forall k ::
        (0 <= k < |history| && TextOf(words, history[k]).Some? && TextOf(words, history[k]).value !in GroupTexts(rows)) ==>
        (|rows| == RecentLimit && forall g :: g in rows ==> history[k].searchedAt <= g.lastSearch)
  {
    var groups := Groups(words, history);
    var sorted := Sort(groups, LaterFirst);
    var rows := RecentRows(words, history);
    GroupsCover(words, history);
    assert Total(LaterFirst) && Transitive(LaterFirst);
    SortSorted(groups, LaterFirst);
    SortedIsPairwise(sorted, LaterFirst);
    assert rows == sorted[..|rows|];
    forall k | 0 <= k < |history| && TextOf(words, history[k]).Some? &&
        TextOf(words, history[k]).value !in GroupTexts(rows)
      ensures |rows| == RecentLimit && forall g :: g in rows ==> history[k].searchedAt <= g.lastSearch
    {
      var c :| c in groups && c.word == TextOf(words, history[k]).value && history[k].searchedAt <= c.lastSearch;
      assert c in multiset(sorted);
      assert c in sorted;
      assert |rows| < RecentLimit ==> rows == sorted;
      assert c !in rows;
      forall g | g in rows ensures history[k].searchedAt <= g.lastSearch {
        TakeKeepsSmallest(sorted, |rows|, LaterFirst, c, g);
      }
    }
  }

  /** The texts of the recent-search groups. */
  function GroupTexts(groups: seq<Searched>): (r: seq<string>)
    ensures |r| == |groups|
    ensures forall i :: 0 <= i < |groups| ==> r[i] == groups[i].word
    ensures forall t :: t in r <==> exists g :: g in groups && g.word == t
  {
    var r := seq(|groups|, i requires 0 <= i < |groups| => groups[i].word);
    assert forall g :: g in groups ==> g.word in r by {
      forall g | g in groups ensures g.word in r {
        var i :| 0 <= i < |groups| && groups[i] == g;
        assert r[i] == g.word;
      }
    }
    r
  }

  // ----------------------------------------------------------------- stats

  /** `DATE(t)` on a local-time timestamp in seconds. */
  function DayOf(t: int): (d: int)
    ensures d * SecondsPerDay <= t < d * SecondsPerDay + SecondsPerDay
  {
    t / SecondsPerDay
  }

  /** The number of history rows for one word. */
  function HistoryCount(history: seq<HistoryEntry>, wordId: int): (r: nat)
    ensures r <= |history|
  {
    if history == [] then 0
    else HistoryCount(history[..|history| - 1], wordId) + (if history[|history| - 1].wordId == wordId then 1 else 0)
  }

  lemma HistoryCountAppend(history: seq<HistoryEntry>, e: HistoryEntry, wordId: int)
    ensures HistoryCount(history + [e], wordId) == HistoryCount(history, wordId) + (if e.wordId == wordId then 1 else 0)
  {
    assert (history + [e])[..|history|] == history;
  }

  lemma {:induction false} HistoryCountZero(history: seq<HistoryEntry>, wordId: int)
    requires forall e :: e in history ==> e.wordId != wordId
    ensures HistoryCount(history, wordId) == 0
    decreases |history|
  {
    if history != [] {
      var prefix := history[..|history| - 1];
      assert forall e :: e in prefix ==> e in history;
      HistoryCountZero(prefix, wordId);
    }
  }

  ghost function WordIndices(history: seq<HistoryEntry>, wordId: int): set<nat>
  {
    set i: nat | i < |history| && history[i].wordId == wordId
  }

  lemma WordIndicesSnoc(history: seq<HistoryEntry>, wordId: int)
    requires history != []
    ensures var n := |history| - 1;
      WordIndices(history, wordId) ==
        WordIndices(history[..n], wordId) + (if history[n].wordId == wordId then {n} else {})
    ensures |history| - 1 !in WordIndices(history[..|history| - 1], wordId)
  {
    var n := |history| - 1;
    var prefix := history[..n];
    forall i: nat | i < n ensures history[i] == prefix[i] {
    }
  }

  /** A word's history count is the number of history rows naming that word. */
  lemma {:induction false} HistoryCountCounts(history: seq<HistoryEntry>, wordId: int)
    ensures HistoryCount(history, wordId) == |WordIndices(history, wordId)|
    decreases |history|
  {
    if history != [] {
      HistoryCountCounts(history[..|history| - 1], wordId);
      WordIndicesSnoc(history, wordId);
    }
  }

  /** `SELECT COUNT(*) FROM search_history WHERE DATE(searched_at) = :day`. */
  function CountOnDay(history: seq<HistoryEntry>, day: int): (r: nat)
    ensures r <= |history|
  {
    if history == [] then 0
    else CountOnDay(history[..|history| - 1], day) + (if DayOf(history[|history| - 1].searchedAt) == day then 1 else 0)
  }

  ghost function DayIndices(history: seq<HistoryEntry>, day: int): set<nat>
  {
    set i: nat | i < |history| && DayOf(history[i].searchedAt) == day
  }

  lemma DayIndicesSnoc(history: seq<HistoryEntry>, day: int)
    requires history != []
    ensures var n := |history| - 1;
      DayIndices(history, day) ==
        DayIndices(history[..n], day) + (if DayOf(history[n].searchedAt) == day then {n} else {})
    ensures |history| - 1 !in DayIndices(history[..|history| - 1], day)
  {
    var n := |history| - 1;
    var prefix := history[..n];
    forall i: nat | i < n ensures history[i] == prefix[i] {
    }
  }

  lemma {:induction false} CountOnDayCounts(history: seq<HistoryEntry>, day: int)
    ensures CountOnDay(history, day) == |DayIndices(history, day)|
    ensures CountOnDay(history, day) <= |history|
    decreases |history|
  {
    if history != [] {
      CountOnDayCounts(history[..|history| - 1], day);
      DayIndicesSnoc(history, day);
    }
  }

  /** `SELECT COUNT(*) FROM favorites WHERE session_id = :sessionId`. */
  function SessionCount(favs: seq<Favorite>, sessionId: string): (r: nat)
    ensures r <= |favs|
  {
    if favs == [] then 0
    else SessionCount(favs[..|favs| - 1], sessionId) + (if favs[|favs| - 1].sessionId == sessionId then 1 else 0)
  }

  ghost function SessionWordIds(favs: seq<Favorite>, sessionId: string): set<int>
  {
    set f | f in favs && f.sessionId == sessionId :: f.wordId
  }

  lemma SessionWordIdsSnoc(prefix: seq<Favorite>, last: Favorite, sessionId: string)
    ensures SessionWordIds(prefix + [last], sessionId) ==
      SessionWordIds(prefix, sessionId) + (if last.sessionId == sessionId then {last.wordId} else {})
  {
    var favs := prefix + [last];
    assert forall f :: f in favs <==> f in prefix || f == last;
  }

  lemma UniquePairsPrefix(favs: seq<Favorite>, n: nat)
    requires UniquePairs(favs) && n <= |favs|
    ensures UniquePairs(favs[..n])
  {
    var prefix := favs[..n];
    forall i, j | 0 <= i < j < |prefix| ensures PairOf(prefix[i]) != PairOf(prefix[j]) {
      assert prefix[i] == favs[i] && prefix[j] == favs[j];
    }
  }

  /** The last row of a table with unique pairs brings a word its session
      has not marked before. */
  lemma NewSessionWord(favs: seq<Favorite>, sessionId: string)
    requires UniquePairs(favs) && favs != []
    ensures favs[|favs| - 1].wordId !in SessionWordIds(favs[..|favs| - 1], sessionId)
      || favs[|favs| - 1].sessionId != sessionId
  {
    var n := |favs| - 1;
    var prefix := favs[..n];
    forall x | x in SessionWordIds(prefix, sessionId) ensures x != favs[n].wordId || favs[n].sessionId != sessionId {
      var f :| f in prefix && f.sessionId == sessionId && f.wordId == x;
      var i :| 0 <= i < |prefix| && prefix[i] == f;
      assert PairOf(favs[i]) != PairOf(favs[n]);
    }
  }

  /** Under the unique key, a session's favourites count is the number of
      distinct words it has marked. */
  lemma {:induction false} SessionCountIsDistinctWords(favs: seq<Favorite>, sessionId: string)
    requires UniquePairs(favs)
    ensures SessionCount(favs, sessionId) == |SessionWordIds(favs, sessionId)|
    decreases |favs|
  {
    if favs != [] {
      var n := |favs| - 1;
      var prefix := favs[..n];
      var last := favs[n];
      UniquePairsPrefix(favs, n);
      SessionCountIsDistinctWords(prefix, sessionId);
      assert favs == prefix + [last];
      SessionWordIdsSnoc(prefix, last, sessionId);
      NewSessionWord(favs, sessionId);
    }
  }

  // --------------------------------------------------------- stats upsert

  /** `INSERT INTO search_stats (word_id, search_count) VALUES (id, 1)
      ON DUPLICATE KEY UPDATE search_count = search_count + 1,
      last_searched = CURRENT_TIMESTAMP`. */
  function Upsert(stats: map<int, Stat>, wordId: int, now: int): (r: map<int, Stat>)
    ensures r.Keys == stats.Keys + {wordId}
    ensures r[wordId].count == (if wordId in stats then stats[wordId].count + 1 else 1)
    ensures r[wordId].lastSearched == now
    ensures forall id :: id in stats && id != wordId ==> r[id] == stats[id]
  {
    if wordId in stats then stats[wordId := Stat(stats[wordId].count + 1, now)]
    else stats[wordId := Stat(1, now)]
  }

  /** Every logged search has a stats row, and each stats row counts its
      word's log rows. */
  ghost predicate CountsAgree(stats: map<int, Stat>, history: seq<HistoryEntry>)
  {
    && (forall e :: e in history ==> e.wordId in stats)
    && (forall id :: id in stats ==> stats[id].count == HistoryCount(history, id))
  }

  /** `getWord`'s two writes together keep the counts in step with the log. */
  lemma LoggedSearchKeepsCounts(stats: map<int, Stat>, history: seq<HistoryEntry>, e: HistoryEntry)
    requires CountsAgree(stats, history)
    ensures CountsAgree(Upsert(stats, e.wordId, e.searchedAt), history + [e])
  {
    var stats' := Upsert(stats, e.wordId, e.searchedAt);
    if e.wordId !in stats {
      HistoryCountZero(history, e.wordId);
    }
    forall id | id in stats' ensures stats'[id].count == HistoryCount(history + [e], id) {
      HistoryCountAppend(history, e, id);
    }
    assert forall x :: x in history + [e] ==> x in history || x == e;
  }

  // --------------------------------------------------------------- request

  /** The request parameters; a missing parameter is `None`. */
  datatype Request = Request(
    action: string,
    q: Option<string>,
    word: Option<string>,
    wordId: Option<int>,
    count: Option<int>,
    sessionId: string,
    server: ServerVars,
    now: int,
    randomPick: nat)

  function OrElse<T>(o: Option<T>, default: T): (r: T)
    ensures o.Some? ==> r == o.value
    ensures o.None? ==> r == default
  {
    match o
    case Some(v) => v
    case None => default
  }

  const Actions: set<string> :=
    {"search", "getWord", "randomWord", "randomWords", "addFavorite", "removeFavorite",
     "getFavorites", "checkFavorite", "recentSearches", "stats"}

  // ----------------------------------------------------------------- store

  /** The four tables, and the AUTO_INCREMENT counter of `words.id`. */
  class Store {
    var words: seq<WordRow>
    var nextId: int
    var searchStats: map<int, Stat>
    var searchHistory: seq<HistoryEntry>
    var favorites: seq<Favorite>

    /** The schema's keys and foreign keys, and the bookkeeping rule that a
        word's search count is the number of its history rows. */
    ghost predicate Valid()
      reads this
      ensures Valid() ==> nextId !in IdsOf(words)
      ensures Valid() ==> forall e :: e in searchHistory ==> e.wordId in IdsOf(words)
    {
      && 0 < nextId
      && (forall w :: w in words ==> 0 < w.id < nextId)
      && IdsUnique(words)
      && searchStats.Keys <= IdsOf(words)
      && CountsAgree(searchStats, searchHistory)
      && (forall f :: f in favorites ==> f.wordId in IdsOf(words))
      && UniquePairs(favorites)
    }

    function FavoritePairs(): set<(int, string)>
      reads this
    {
      PairsOf(favorites)
    }

    /** Freshly created, empty tables. */
    constructor ()
      ensures Valid()
      ensures words == [] && searchStats == map[] && searchHistory == [] && favorites == []
    {
      words, nextId, searchStats, searchHistory, favorites := [], 1, map[], [], [];
    }

    /** `search`: up to ten rows whose word matches `q%`, alphabetically,
        each definition cut to a preview. */
    method Search(q: string) returns (reply: Reply)
      ensures q == [] ==> reply == Failure("Query too short")
      ensures q != [] ==> reply.Suggestions? && |reply.suggestions| == |SearchRows(words, q)|
      ensures q != [] ==> forall i :: 0 <= i < |reply.suggestions| ==> reply.suggestions[i] == Summary(SearchRows(words, q)[i])
    {
      if |q| < 1 {
        return Failure("Query too short");
      }
      var rows := SearchRows(words, q);
      var suggestions: seq<Entry> := [];
      var i := 0;
      while i < |rows|
        invariant 0 <= i <= |rows|
        invariant |suggestions| == i
        invariant forall k :: 0 <= k < i ==> suggestions[k] == Summary(rows[k])
      {
        suggestions := suggestions + [Summary(rows[i])];
        i := i + 1;
      }
      reply := Suggestions(suggestions);
    }

    /** `getWord`: counts the lookup, logs it, and returns the whole row. */
    method GetWord(word: string, server: ServerVars, now: int) returns (reply: Reply)
      requires Valid()
      modifies this
      ensures Valid()
      ensures words == old(words) && favorites == old(favorites) && nextId == old(nextId)
      ensures PhpEmpty(word) ==> reply == Failure("Word not specified")
      ensures !PhpEmpty(word) && FindWord(words, word).None? ==> reply == Failure("Word not found")
      ensures !reply.Success() ==> searchStats == old(searchStats) && searchHistory == old(searchHistory)
      ensures !PhpEmpty(word) && FindWord(words, word).Some? ==>
        var row := FindWord(words, word).value;
        var count := if row.id in old(searchStats) then old(searchStats)[row.id].count + 1 else 1;
        && searchStats == Upsert(old(searchStats), row.id, now)
        && searchHistory == old(searchHistory) + [HistoryEntry(row.id, now, GetUserIP(server))]
        && reply == WordDetail(row.word, row.definition, row.id, count, now)
      ensures reply.WordDetail? ==> reply.searchCount == HistoryCount(searchHistory, reply.id)
    {
      if PhpEmpty(word) {
        return Failure("Word not specified");
      }
      var found := FindWord(words, word);
      if found.None? {
        return Failure("Word not found");
      }
      var row := found.value;
      var wordId := row.id;
      assert wordId in IdsOf(words);
      var ip := GetUserIP(server);
      LogSearch(wordId, ip, now);
      var stat := searchStats[wordId];
      reply := WordDetail(row.word, row.definition, row.id, stat.count, stat.lastSearched);
    }

    /** The upsert into `search_stats` and the insert into `search_history`
        that a successful lookup makes. */
    method LogSearch(wordId: int, ip: string, now: int)
      requires Valid() && wordId in IdsOf(words)
      modifies this
      ensures Valid()
      ensures words == old(words) && favorites == old(favorites) && nextId == old(nextId)
      ensures searchStats == Upsert(old(searchStats), wordId, now)
      ensures searchHistory == old(searchHistory) + [HistoryEntry(wordId, now, ip)]
      ensures searchStats[wordId] ==
        Stat(if wordId in old(searchStats) then old(searchStats)[wordId].count + 1 else 1, now)
      ensures searchStats[wordId].count == HistoryCount(searchHistory, wordId)
    {
      LoggedSearchKeepsCounts(searchStats, searchHistory, HistoryEntry(wordId, now, ip));
      searchStats := Upsert(searchStats, wordId, now);
      searchHistory := searchHistory + [HistoryEntry(wordId, now, ip)];
    }

    /** `randomWord`: one row of the table; `pick` stands for `RAND()`. */
    method RandomWord(pick: nat) returns (reply: Reply)
      ensures words == [] ==> reply == Failure("No words found")
      ensures words != [] ==> reply.RandomWord? && WordRow(reply.id, reply.word, reply.definition) in words
    {
      if words == [] {
        return Failure("No words found");
      }
      var row := words[pick % |words|];
      reply := Reply.RandomWord(row.word, row.definition, row.id);
    }

    /** `randomWords`: `count` word texts in a random order, no row twice.
        The order `ORDER BY RAND()` picks is a rotation by `offset`. A
        negative count makes `LIMIT` a syntax error. */
    method RandomWords(count: int, offset: nat) returns (reply: Reply)
      ensures count < 0 ==> reply == Aborted
      ensures count >= 0 ==> reply.WordList? && |reply.words| == Min(count, |words|)
      ensures count >= 0 ==> multiset(reply.words) <= multiset(Texts(words))
      ensures count >= 0 ==> reply.words == Texts(Take(Rotate(words, offset), count))
    {
      if count < 0 {
        return Aborted;
      }
      var rows := Take(Rotate(words, offset), count);
      var texts: seq<string> := [];
      var i := 0;
      while i < |rows|
        invariant 0 <= i <= |rows|
        invariant |texts| == i
        invariant forall k :: 0 <= k < i ==> texts[k] == rows[k].word
      {
        texts := texts + [rows[i].word];
        i := i + 1;
      }
      assert texts == Texts(rows);
      RotatedPrefixTexts(words, offset, count);
      reply := WordList(texts);
    }

    /** `addFavorite`: `INSERT IGNORE` of the pair. The insert is ignored
        when the pair exists (the unique key) or when no word has that id
        (the foreign key); either way the reply is "Already in favorites". */
    method AddFavorite(wordId: int, sessionId: string, now: int) returns (reply: Reply)
      requires Valid()
      modifies this
      ensures Valid()
      ensures words == old(words) && searchStats == old(searchStats)
      ensures searchHistory == old(searchHistory) && nextId == old(nextId)
      ensures wordId == 0 ==> reply == Failure("Invalid word ID") && favorites == old(favorites)
      ensures wordId != 0 && ((wordId, sessionId) in old(FavoritePairs()) || wordId !in IdsOf(words)) ==>
        reply == Failure("Already in favorites") && favorites == old(favorites)
      ensures wordId != 0 && (wordId, sessionId) !in old(FavoritePairs()) && wordId in IdsOf(words) ==>
        reply == Done("Added to favorites") && favorites == old(favorites) + [Favorite(wordId, sessionId, now)]
      ensures wordId != 0 && wordId in IdsOf(words) ==> FavoritePairs() == old(FavoritePairs()) + {(wordId, sessionId)}
    {
      if wordId == 0 {
        return Failure("Invalid word ID");
      }
      var rowCount := 0;
      if (wordId, sessionId) !in PairsOf(favorites) && wordId in IdsOf(words) {
        var f := Favorite(wordId, sessionId, now);
        forall i | 0 <= i < |favorites| ensures PairOf(favorites[i]) != PairOf(f) {
          assert favorites[i] in favorites;
        }
        ghost var favs0 := favorites;
        favorites := favorites + [f];
        assert forall g :: g in favorites <==> g in favs0 || g == f;
        assert PairsOf(favorites) == PairsOf(favs0) + {PairOf(f)};
        rowCount := 1;
      }
      if rowCount > 0 {
        reply := Done("Added to favorites");
      } else {
        reply := Failure("Already in favorites");
      }
    }

    /** `removeFavorite`: deletes the pair if it is there; succeeds either way. */
    method RemoveFavorite(wordId: int, sessionId: string) returns (reply: Reply)
      requires Valid()
      modifies this
      ensures Valid()
      ensures words == old(words) && searchStats == old(searchStats)
      ensures searchHistory == old(searchHistory) && nextId == old(nextId)
      ensures wordId == 0 ==> reply == Failure("Invalid word ID") && favorites == old(favorites)
      ensures wordId != 0 ==> reply == Done("Removed from favorites")
      ensures wordId != 0 ==> favorites == WithoutPair(old(favorites), (wordId, sessionId))
      ensures wordId != 0 ==> FavoritePairs() == old(FavoritePairs()) - {(wordId, sessionId)}
    {
      if wordId == 0 {
        return Failure("Invalid word ID");
      }
      WithoutPairSpec(favorites, (wordId, sessionId));
      favorites := WithoutPair(favorites, (wordId, sessionId));
      reply := Done("Removed from favorites");
    }

    /** `getFavorites`: the caller's favourites, newest first, previewed. */
    method GetFavorites(sessionId: string) returns (reply: Reply)
      ensures reply.FavoriteList?
      ensures |reply.favorites| == |FavoriteRows(words, favorites, sessionId)|
      ensures forall i :: 0 <= i < |reply.favorites| ==>
        reply.favorites[i] == Summary(FavoriteRows(words, favorites, sessionId)[i].word)
    {
      var rows := FavoriteRows(words, favorites, sessionId);
      var list: seq<Entry> := [];
      var i := 0;
      while i < |rows|
        invariant 0 <= i <= |rows|
        invariant |list| == i
        invariant forall k :: 0 <= k < i ==> list[k] == Summary(rows[k].word)
      {
        list := list + [Summary(rows[i].word)];
        i := i + 1;
      }
      reply := FavoriteList(list);
    }

    /** `checkFavorite`: whether the caller has marked the word. */
    method CheckFavorite(wordId: int, sessionId: string) returns (reply: Reply)
      ensures reply == FavoriteStatus((wordId, sessionId) in FavoritePairs())
      ensures reply.isFavorite <==> exists f :: f in favorites && f.wordId == wordId && f.sessionId == sessionId
    {
      var matches := PairsOf(favorites) * {(wordId, sessionId)};
      reply := FavoriteStatus(|matches| > 0);
      if (wordId, sessionId) in PairsOf(favorites) {
        assert (wordId, sessionId) in matches;
      }
    }

    /** `recentSearches`: the globally most recently searched word texts. */
    method RecentSearches() returns (reply: Reply)
      ensures reply.WordList?
      ensures reply.words == GroupTexts(RecentRows(words, searchHistory))
    {
      var rows := RecentRows(words, searchHistory);
      var recent: seq<string> := [];
      var i := 0;
      while i < |rows|
        invariant 0 <= i <= |rows|
        invariant |recent| == i
        invariant forall k :: 0 <= k < i ==> recent[k] == rows[k].word
      {
        recent := recent + [rows[i].word];
        i := i + 1;
      }
      assert recent == GroupTexts(rows);
      reply := WordList(recent);
    }

    /** `stats`: four counts; "today" is the day of `now`. */
    method Stats(sessionId: string, now: int) returns (reply: Reply)
      requires UniquePairs(favorites)
      ensures reply.Statistics?
      ensures reply.totalSearches == |searchHistory|
      ensures reply.todaySearches == |DayIndices(searchHistory, DayOf(now))|
      ensures reply.favoritesCount == |SessionWordIds(favorites, sessionId)|
      ensures reply.totalWords == |words|
    {
      CountOnDayCounts(searchHistory, DayOf(now));
      SessionCountIsDistinctWords(favorites, sessionId);
      reply := Statistics(|searchHistory|, CountOnDay(searchHistory, DayOf(now)),
                          SessionCount(favorites, sessionId), |words|);
    }

    /** The reply of each action that only reads the tables, with each
        parameter's default. */
    ghost predicate Answers(req: Request, reply: Reply)
      reads this
    {
      && (req.action !in Actions ==> reply == Failure("Invalid action"))
      // `search`, with `q` defaulting to ''
      && (req.action == "search" ==> var q := OrElse(req.q, "");
        && (q == [] ==> reply == Failure("Query too short"))
        && (q != [] ==> reply.Suggestions? && |reply.suggestions| == |SearchRows(words, q)|)
        && (q != [] ==> forall i :: 0 <= i < |reply.suggestions| ==> reply.suggestions[i] == Summary(SearchRows(words, q)[i])))
      && (req.action == "randomWord" ==>
        && (words == [] ==> reply == Failure("No words found"))
        && (words != [] ==> reply.RandomWord? && WordRow(reply.id, reply.word, reply.definition) in words))
      // `randomWords`, with `count` defaulting to 6
      && (req.action == "randomWords" ==> var count := OrElse(req.count, DefaultRandomCount);
        && (count < 0 ==> reply == Aborted)
        && (count >= 0 ==> reply == WordList(Texts(Take(Rotate(words, req.randomPick), count)))))
      && (req.action == "getFavorites" ==>
        && reply.FavoriteList?
        && |reply.favorites| == |FavoriteRows(words, favorites, req.sessionId)|
        && forall i :: 0 <= i < |reply.favorites| ==>
             reply.favorites[i] == Summary(FavoriteRows(words, favorites, req.sessionId)[i].word))
      // `checkFavorite`, with `wordId` defaulting to 0
      && (req.action == "checkFavorite" ==>
        reply == FavoriteStatus((OrElse(req.wordId, 0), req.sessionId) in FavoritePairs()))
      && (req.action == "recentSearches" ==> reply == WordList(GroupTexts(RecentRows(words, searchHistory))))
      && (req.action == "stats" ==>
        && reply.Statistics?
        && reply.totalSearches == |searchHistory|
        && reply.todaySearches == |DayIndices(searchHistory, DayOf(req.now))|
        && reply.favoritesCount == |SessionWordIds(favorites, req.sessionId)|
        && reply.totalWords == |words|)
    }

    /** The actions that only read the tables. */
    method Answer(req: Request) returns (reply: Reply)
      requires Valid()
      ensures Answers(req, reply)
    {
      var action := req.action;
      if action == "search" {
        reply := Search(OrElse(req.q, ""));
      } else if action == "randomWord" {
        reply := RandomWord(req.randomPick);
      } else if action == "randomWords" {
        reply := RandomWords(OrElse(req.count, DefaultRandomCount), req.randomPick);
      } else if action == "getFavorites" {
        reply := GetFavorites(req.sessionId);
      } else if action == "checkFavorite" {
        reply := CheckFavorite(OrElse(req.wordId, 0), req.sessionId);
      } else if action == "recentSearches" {
        reply := RecentSearches();
      } else if action == "stats" {
        reply := Stats(req.sessionId, req.now);
      } else {
        reply := Failure("Invalid action");
      }
    }

    /** The `switch ($action)`, with each parameter's default. */
    method Dispatch(req: Request) returns (reply: Reply)
      requires Valid()
      modifies this
      ensures Valid()
      ensures req.action !in Actions ==> reply == Failure("Invalid action")
      ensures req.action !in {"getWord", "addFavorite", "removeFavorite"} ==>
        words == old(words) && searchStats == old(searchStats) &&
        searchHistory == old(searchHistory) && favorites == old(favorites)
      ensures words == old(words) && nextId == old(nextId)
      // `getWord`, with `word` defaulting to ''
      ensures req.action == "getWord" ==> var w := OrElse(req.word, "");
        && favorites == old(favorites)
        && (PhpEmpty(w) ==> reply == Failure("Word not specified"))
        && (!PhpEmpty(w) && FindWord(words, w).None? ==> reply == Failure("Word not found"))
        && (!reply.Success() ==> searchStats == old(searchStats) && searchHistory == old(searchHistory))
        && (!PhpEmpty(w) && FindWord(words, w).Some? ==>
              var row := FindWord(words, w).value;
              var count := if row.id in old(searchStats) then old(searchStats)[row.id].count + 1 else 1;
              && searchStats == Upsert(old(searchStats), row.id, req.now)
              && searchHistory == old(searchHistory) + [HistoryEntry(row.id, req.now, GetUserIP(req.server))]
              && reply == WordDetail(row.word, row.definition, row.id, count, req.now))
      // `addFavorite` and `removeFavorite`, with `wordId` defaulting to 0
      ensures req.action == "addFavorite" ==> var id, pair := OrElse(req.wordId, 0), (OrElse(req.wordId, 0), req.sessionId);
        && searchStats == old(searchStats) && searchHistory == old(searchHistory)
        && (id == 0 ==> reply == Failure("Invalid word ID") && favorites == old(favorites))
        && (id != 0 && (pair in old(FavoritePairs()) || id !in IdsOf(words)) ==>
              reply == Failure("Already in favorites") && favorites == old(favorites))
        && (id != 0 && pair !in old(FavoritePairs()) && id in IdsOf(words) ==>
              reply == Done("Added to favorites") && favorites == old(favorites) + [Favorite(id, req.sessionId, req.now)])
      ensures req.action == "removeFavorite" ==> var id, pair := OrElse(req.wordId, 0), (OrElse(req.wordId, 0), req.sessionId);
        && searchStats == old(searchStats) && searchHistory == old(searchHistory)
        && (id == 0 ==> reply == Failure("Invalid word ID") && favorites == old(favorites))
        && (id != 0 ==> reply == Done("Removed from favorites") && favorites == WithoutPair(old(favorites), pair))
      ensures req.action !in {"getWord", "addFavorite", "removeFavorite"} ==> Answers(req, reply)
    {
      var action := req.action;
      if action == "getWord" {
        reply := GetWord(OrElse(req.word, ""), req.server, req.now);
      } else if action == "addFavorite" {
        reply := AddFavorite(OrElse(req.wordId, 0), req.sessionId, req.now);
      } else if action == "removeFavorite" {
        reply := RemoveFavorite(OrElse(req.wordId, 0), req.sessionId);
      } else {
        reply := Answer(req);
      }
    }

    /** `DELETE FROM words`; the foreign keys' ON DELETE CASCADE empties
        the other three tables. AUTO_INCREMENT keeps counting. */
    method ClearWords()
      requires Valid()
      modifies this
      ensures Valid()
      ensures words == [] && searchStats == map[] && searchHistory == [] && favorites == []
      ensures nextId == old(nextId)
    {
      words, searchStats, searchHistory, favorites := [], map[], [], [];
    }

    /** One `INSERT INTO words (word, definition)`: the row gets the next
        AUTO_INCREMENT id. */
    method InsertWord(word: string, definition: string)
      requires Valid()
      modifies this
      ensures Valid()
      ensures words == old(words) + [WordRow(old(nextId), word, definition)]
      ensures searchStats == old(searchStats) && searchHistory == old(searchHistory) && favorites == old(favorites)
      ensures nextId == old(nextId) + 1
    {
      var row := WordRow(nextId, word, definition);
      ghost var before := words;
      words := words + [row];
      assert forall w :: w in words <==> w in before || w == row;
      assert IdsOf(before) <= IdsOf(words);
      forall j, k | 0 <= j < k < |words| ensures words[j].id != words[k].id {
        if k < |before| { assert words[j] == before[j] && words[k] == before[k]; }
        else { assert words[j] in before; }
      }
      nextId := nextId + 1;
    }

    /** `executemany("INSERT INTO words (word, definition) ...", batch)`:
        one row per pair, in order, with fresh ids. */
    method InsertWords(batch: seq<(string, string)>)
      requires Valid()
      modifies this
      ensures Valid()
      ensures WordPairs(words) == WordPairs(old(words)) + batch
      ensures searchStats == old(searchStats) && searchHistory == old(searchHistory) && favorites == old(favorites)
      ensures nextId == old(nextId) + |batch|
    {
      var i := 0;
      while i < |batch|
        invariant 0 <= i <= |batch|
        invariant Valid()
        invariant nextId == old(nextId) + i
        invariant WordPairs(words) == WordPairs(old(words)) + batch[..i]
        invariant searchStats == old(searchStats) && searchHistory == old(searchHistory) && favorites == old(favorites)
      {
        ghost var before := words;
        InsertWord(batch[i].0, batch[i].1);
        assert WordPairs(words) == WordPairs(before) + [batch[i]];
        assert batch[..i + 1] == batch[..i] + [batch[i]];
        i := i + 1;
      }
      assert batch[..i] == batch;
    }
  }

}
