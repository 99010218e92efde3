/** The browser side (website/script.js): the list of recent searches kept
    in local storage, the relative time label under a result, the text a
    word is shared with, and the favourite button, whose highlighted state
    is meant to mirror the server's favourites table. */
module Client {
  import opened Text
  import Api

  // ------------------------------------------------------- recent searches

  const LocalRecentLimit: nat := 20

  /** `recent.filter(w => w !== word)`. */
  function Without(s: seq<string>, w: string): (r: seq<string>)
    ensures |r| <= |s|
    decreases |s|
  {
    if s == [] then [] else (if s[0] == w then [] else [s[0]]) + Without(s[1..], w)
  }

  /** Filtering drops every copy of `w` and keeps every other element,
      with its number of copies. */
  lemma {:induction false} WithoutSpec(s: seq<string>, w: string)
    ensures forall x :: multiset(Without(s, w))[x] == if x == w then 0 else multiset(s)[x]
    decreases |s|
  {
    if s != [] {
      var rest := Without(s[1..], w);
      WithoutSpec(s[1..], w);
      assert s == [s[0]] + s[1..];
      forall x ensures multiset(Without(s, w))[x] == if x == w then 0 else multiset(s)[x] {
        assert multiset(s)[x] == multiset{s[0]}[x] + multiset(s[1..])[x];
        if s[0] == w {
          assert Without(s, w) == rest;
        } else {
          assert Without(s, w) == [s[0]] + rest;
          assert multiset(Without(s, w))[x] == multiset{s[0]}[x] + multiset(rest)[x];
        }
      }
    }
  }

  /** Filtering out what is not there changes nothing. */
  lemma {:induction false} WithoutAbsent(s: seq<string>, w: string)
    requires w !in s
    ensures Without(s, w) == s
    decreases |s|
  {
    if s != [] {
      WithoutAbsent(s[1..], w);
      assert s == [s[0]] + s[1..];
    }
  }

  ghost predicate Distinct(s: seq<string>)
  {
    forall i, j :: 0 <= i < j < |s| ==> s[i] != s[j]
  }

  lemma {:induction false} WithoutKeepsDistinct(s: seq<string>, w: string)
    requires Distinct(s)
    ensures Distinct(Without(s, w))
    decreases |s|
  {
    if s != [] {
      var rest := Without(s[1..], w);
      assert Distinct(s[1..]) by {
        forall i, j | 0 <= i < j < |s[1..]| ensures s[1..][i] != s[1..][j] {
          assert s[1..][i] == s[i + 1] && s[1..][j] == s[j + 1];
        }
      }
      WithoutKeepsDistinct(s[1..], w);
      WithoutSpec(s[1..], w);
      assert s[0] !in s[1..] by {
        forall k | 0 <= k < |s[1..]| ensures s[1..][k] != s[0] {
          assert s[1..][k] == s[k + 1];
        }
      }
      assert multiset(s[1..])[s[0]] == 0;
      assert s[0] !in multiset(rest);
      var r := Without(s, w);
      if s[0] != w {
        assert r == [s[0]] + rest;
        forall i, j | 0 <= i < j < |r| ensures r[i] != r[j] {
          assert r[j] == rest[j - 1];
          if i > 0 {
            assert r[i] == rest[i - 1];
          } else {
            assert rest[j - 1] in multiset(rest);
          }
        }
      } else {
        assert r == rest;
      }
    }
  }

  /** `saveToLocalRecent(word)`: the word moves to the front, any earlier
      copy is dropped, and the list is cut to twenty. */
  function SavedRecent(s: seq<string>, w: string): (r: seq<string>)
    ensures 0 < |r| <= LocalRecentLimit && r[0] == w
  {
    Take([w] + Without(s, w), LocalRecentLimit)
  }

  /** The saved word comes first and appears once; the rest is the old list
      without it, in its old order, cut to nineteen; nothing new appears. */
  lemma SavedRecentSpec(s: seq<string>, w: string)
    ensures var r := SavedRecent(s, w);
      && r != [] && r[0] == w
      && |r| == Min(|Without(s, w)| + 1, LocalRecentLimit)
      && r[1..] == Take(Without(s, w), LocalRecentLimit - 1)
      && multiset(r)[w] == 1
      && (forall x :: x in r && x != w ==> x in s)
  {
    var t := Without(s, w);
    WithoutSpec(s, w);
    TakeCons(w, t, LocalRecentLimit);
    var rest := Take(t, LocalRecentLimit - 1);
    TakeMultiset(t, LocalRecentLimit - 1);
    var r := SavedRecent(s, w);
    assert r == [w] + rest;
    assert r[1..] == rest;
    assert multiset(r) == multiset{w} + multiset(rest);
    forall x | x in r && x != w ensures x in s {
      assert x in multiset(rest);
    }
  }

  /** Saving the word that was just saved changes nothing. */
  lemma SavedRecentIdempotent(s: seq<string>, w: string)
    ensures SavedRecent(SavedRecent(s, w), w) == SavedRecent(s, w)
  {
    var r := SavedRecent(s, w);
    SavedRecentSpec(s, w);
    var tail := r[1..];
    assert multiset(tail)[w] == 0 by {
      assert r == [w] + tail;
      assert multiset(r) == multiset{w} + multiset(tail);
    }
    assert w !in tail;
    WithoutAbsent(tail, w);
    assert r == [w] + tail;
    assert Without(r, w) == tail;
  }

  /** A list without duplicates stays without duplicates and within twenty. */
  lemma SavedRecentDistinct(s: seq<string>, w: string)
    requires Distinct(s)
    ensures Distinct(SavedRecent(s, w))
    ensures |SavedRecent(s, w)| <= LocalRecentLimit
  {
    var t := Without(s, w);
    WithoutKeepsDistinct(s, w);
    WithoutSpec(s, w);
    var l := [w] + t;
    assert w !in multiset(t);
    forall i, j | 0 <= i < j < |l| ensures l[i] != l[j] {
      assert l[j] == t[j - 1];
      if i > 0 {
        assert l[i] == t[i - 1];
      } else {
        assert t[j - 1] in multiset(t);
      }
    }
    var r := SavedRecent(s, w);
    assert r <= l;
    forall i, j | 0 <= i < j < |r| ensures r[i] != r[j] {
      assert r[i] == l[i] && r[j] == l[j];
    }
  }

  /** The local-storage entry `recentSearches`, parsed. */
  class LocalRecent {
    var items: seq<string>

    /** No entry yet: `localStorage.getItem(...) || '[]'`. */
    constructor ()
      ensures items == []
    {
      items := [];
    }

    /** `saveToLocalRecent`. */
    method Save(word: string)
      modifies this
      ensures items == SavedRecent(old(items), word)
    {
      var recent := Without(items, word);
      recent := [word] + recent;
      recent := Take(recent, LocalRecentLimit);
      items := recent;
    }
  }

  // ----------------------------------------------------------- formatDate

  const MsPerMinute: nat := 60000
  const MsPerHour: nat := 3600000
  const MsPerDay: nat := 86400000

  datatype TimeUnit = Minute | Hour | Day

  /** What `formatDate` shows: "Just now", "<n> <unit>(s) ago", or the
      date in the browser's own format. */
  datatype Elapsed = JustNow | Ago(count: nat, unit: TimeUnit) | OnDate

  function Abs(x: int): nat { if x < 0 then -x else x }

  function UnitMs(u: TimeUnit): nat
  {
    match u
    case Minute => MsPerMinute
    case Hour => MsPerHour
    case Day => MsPerDay
  }

  /** The branches of `formatDate` on `diffTime`, in milliseconds. */
  function Classify(diffTime: nat): (e: Elapsed)
    ensures e == JustNow <==> diffTime < MsPerMinute
    ensures e == OnDate <==> 7 * MsPerDay <= diffTime
  {
    var diffDays := diffTime / MsPerDay;
    var diffHours := diffTime / MsPerHour;
    var diffMinutes := diffTime / MsPerMinute;
    if diffMinutes < 1 then JustNow
    else if diffMinutes < 60 then Ago(diffMinutes, Minute)
    else if diffHours < 24 then Ago(diffHours, Hour)
    else if diffDays < 7 then Ago(diffDays, Day)
    else OnDate
  }

  /** `date` is the parsed timestamp in milliseconds, `None` when
      `new Date(dateString)` is invalid: every comparison with NaN is false,
      so the calendar date is shown. */
  function ElapsedSince(date: Option<int>, now: int): (e: Elapsed)
    ensures date.None? ==> e == OnDate
    ensures date.Some? ==> (e == JustNow <==> Abs(now - date.value) < MsPerMinute)
    ensures date.Some? ==> (e == OnDate <==> 7 * MsPerDay <= Abs(now - date.value))
  {
    if date.None? then OnDate else Classify(Abs(now - date.value))
  }

  /** Which label each distance gets: under a minute is "Just now", then
      minutes up to an hour, hours up to a day, days up to a week, then the
      calendar date. */
  lemma ClassifyBands(d: nat)
    ensures Classify(d) == JustNow <==> d < MsPerMinute
    ensures Classify(d).Ago? && Classify(d).unit == Minute <==> MsPerMinute <= d < MsPerHour
    ensures Classify(d).Ago? && Classify(d).unit == Hour <==> MsPerHour <= d < MsPerDay
    ensures Classify(d).Ago? && Classify(d).unit == Day <==> MsPerDay <= d < 7 * MsPerDay
    ensures Classify(d) == OnDate <==> 7 * MsPerDay <= d
  {
  }

  /** The number shown is the count of whole units elapsed, at least one. */
  lemma ClassifyCount(d: nat)
    ensures Classify(d).Ago? ==>
      var e := Classify(d);
      && 1 <= e.count
      && e.count * UnitMs(e.unit) <= d < (e.count + 1) * UnitMs(e.unit)
  {
  }

  /** `Math.abs`: a time in the future reads like the same distance in the past. */
  lemma ElapsedSymmetric(a: int, b: int)
    ensures ElapsedSince(Some(a), b) == ElapsedSince(Some(b), a)
  {
  }

  function UnitName(u: TimeUnit): (r: string)
    ensures |r| >= 3 && r[|r| - 1] != 's'
  {
    match u
    case Minute => "minute"
    case Hour => "hour"
    case Day => "day"
  }

  /** What follows the number: the unit, an "s" for a plural, and "ago". */
  function SuffixOf(u: TimeUnit, plural: bool): string
  {
    " " + UnitName(u) + (if plural then "s" else "") + " ago"
  }

  /** `${n} unit${n > 1 ? 's' : ''} ago` without the number. */
  function Suffix(n: nat, u: TimeUnit): (r: string)
    ensures |r| >= 5 && (r[|r| - 5..] == "s ago" <==> n > 1)
    ensures r[|r| - 4..] == " ago"
  {
    SuffixEnding(u, n > 1);
    var r := SuffixOf(u, n > 1);
    assert r == (" " + UnitName(u) + (if n > 1 then "s" else "")) + " ago";
    r
  }

  /** The text `formatDate` returns; `localeDate` is `toLocaleDateString()`. */
  function Label(e: Elapsed, localeDate: string): (r: string)
    ensures e.Ago? ==> NatToString(e.count) <= r && |r| >= 4 && r[|r| - 4..] == " ago"
    ensures e.OnDate? ==> r == localeDate
  {
    match e
    case JustNow => "Just now"
    case Ago(n, u) =>
      var d, t := NatToString(n), Suffix(n, u);
      assert (d + t)[|d + t| - 4..] == t[|t| - 4..];
      d + t
    case OnDate => localeDate
  }

  function FormatDate(date: Option<int>, now: int, localeDate: string): (r: string)
    ensures date.None? ==> r == localeDate
    ensures date.Some? && Abs(now - date.value) < MsPerMinute ==> r == "Just now"
    ensures date.Some? && 7 * MsPerDay <= Abs(now - date.value) ==> r == localeDate
  {
    Label(ElapsedSince(date, now), localeDate)
  }

  lemma SuffixEnding(u: TimeUnit, plural: bool)
    ensures var t := SuffixOf(u, plural);
      |t| >= 8 && (t[|t| - 5..] == "s ago" <==> plural)
  {
    var t := SuffixOf(u, plural);
    var name := UnitName(u);
    assert |name| >= 3 && name[|name| - 1] != 's';
    if plural {
      assert t == (" " + name) + "s ago";
    } else {
      assert t == (" " + name) + " ago";
      assert t[|t| - 5] == name[|name| - 1];
    }
  }

  lemma SameEnding(d: string, t: string)
    requires |t| >= 5
    ensures (d + t)[|d + t| - 5..] == t[|t| - 5..]
  {
  }

  /** The plural "s" is there exactly when the count is above one. */
  lemma PluralOnlyAboveOne(n: nat, u: TimeUnit)
    ensures var s := Label(Ago(n, u), "");
      (|s| >= 5 && s[|s| - 5..] == "s ago") <==> n > 1
  {
    SuffixEnding(u, n > 1);
    SameEnding(NatToString(n), SuffixOf(u, n > 1));
  }

  predicate IsDigit(c: char) { '0' <= c <= '9' }

  /** The length of the run of digits that starts `s`. */
  function DigitRun(s: string): (k: nat)
    ensures k <= |s|
    ensures forall i :: 0 <= i < k ==> IsDigit(s[i])
    ensures k < |s| ==> !IsDigit(s[k])
  {
    if s != [] && IsDigit(s[0]) then
      var k := 1 + DigitRun(s[1..]);
      assert forall i :: 1 <= i < k ==> s[i] == s[1..][i - 1];
      k
    else 0
  }

  lemma {:induction false} DigitRunOf(digits: string, rest: string)
    requires forall i :: 0 <= i < |digits| ==> IsDigit(digits[i])
    requires rest == [] || !IsDigit(rest[0])
    ensures DigitRun(digits + rest) == |digits|
    decreases |digits|
  {
    if digits != [] {
      assert (digits + rest)[1..] == digits[1..] + rest;
      DigitRunOf(digits[1..], rest);
    } else {
      assert digits + rest == rest;
    }
  }

  /** Which of the six suffixes `t` is. */
  function ParseSuffix(t: string): Option<(TimeUnit, bool)>
  {
    if t == " minute ago" then Some((Minute, false))
    else if t == " minutes ago" then Some((Minute, true))
    else if t == " hour ago" then Some((Hour, false))
    else if t == " hours ago" then Some((Hour, true))
    else if t == " day ago" then Some((Day, false))
    else if t == " days ago" then Some((Day, true))
    else None
  }

  /** The six suffixes are told apart, and nothing else is taken for one. */
  lemma ParseSuffixInverse(u: TimeUnit, plural: bool, t: string)
    ensures ParseSuffix(SuffixOf(u, plural)) == Some((u, plural))
    ensures ParseSuffix(t) == Some((u, plural)) ==> t == SuffixOf(u, plural)
  {
    var names := [" minute ago", " minutes ago", " hour ago", " hours ago", " day ago", " days ago"];
    assert SuffixOf(Minute, false) == names[0];
    assert SuffixOf(Minute, true) == names[1];
    assert SuffixOf(Hour, false) == names[2];
    assert SuffixOf(Hour, true) == names[3];
    assert SuffixOf(Day, false) == names[4];
    assert SuffixOf(Day, true) == names[5];
  }

  /** Reads a label back. Leading zeros and a plural that disagrees with
      the count are refused, so each label has one reading. */
  function ParseLabel(s: string): Option<Elapsed>
  {
    if s == "Just now" then Some(JustNow)
    else
      var k := DigitRun(s);
      if k == 0 || (k > 1 && s[0] == '0') then None
      else
        var n := DecimalValue(s[..k]);
        match ParseSuffix(s[k..])
        case Some((u, plural)) => if plural == (n > 1) then Some(Ago(n, u)) else None
        case None => None
  }

  /** Every label but the calendar date reads back as what produced it. */
  lemma ParseLabelOfLabel(e: Elapsed)
    requires !e.OnDate?
    ensures ParseLabel(Label(e, "")) == Some(e)
  {
    if e.Ago? {
      var n, u := e.count, e.unit;
      var digits := NatToString(n);
      var s := Label(e, "");
      var tail := SuffixOf(u, n > 1);
      assert s == digits + tail;
      assert tail[0] == ' ';
      DigitRunOf(digits, tail);
      assert s[..|digits|] == digits && s[|digits|..] == tail;
      NatToStringRoundTrip(n);
      ParseSuffixInverse(u, n > 1, tail);
      assert s != "Just now" by {
        assert IsDigit(s[0]);
      }
    }
  }

  lemma {:induction false} DecimalPositive(d: string)
    requires d != [] && d[0] != '0'
    requires forall i :: 0 <= i < |d| ==> '0' <= d[i] <= '9'
    ensures DecimalValue(d) > 0
    decreases |d|
  {
    if |d| > 1 {
      DecimalPositive(d[..|d| - 1]);
    }
  }

  /** A digit string without leading zeros is the decimal form of its value. */
  lemma {:induction false} DecimalRoundTrip(d: string)
    requires d != [] && (|d| > 1 ==> d[0] != '0')
    requires forall i :: 0 <= i < |d| ==> '0' <= d[i] <= '9'
    ensures NatToString(DecimalValue(d)) == d
    decreases |d|
  {
    var v := DecimalValue(d);
    var last := d[|d| - 1];
    var c := last as int - '0' as int;
    if |d| == 1 {
      assert d[..0] == [];
      assert v == c;
      assert DigitChar(c) == last;
    } else {
      var front := d[..|d| - 1];
      var f := DecimalValue(front);
      DecimalPositive(front);
      DecimalRoundTrip(front);
      assert v == 10 * f + c;
      DivModDigit(f, c);
      assert DigitChar(c) == last;
      assert NatToString(v) == NatToString(f) + [DigitChar(c)];
      assert d == front + [last];
    }
  }

  lemma DivModDigit(f: nat, c: nat)
    requires f > 0 && c < 10
    ensures (10 * f + c) / 10 == f && (10 * f + c) % 10 == c && 10 * f + c >= 10
  {
  }

  /** The digit run that starts `s` is made of digits and leaves the rest. */
  lemma DigitPrefix(s: string)
    ensures var d := s[..DigitRun(s)];
      && (forall i :: 0 <= i < |d| ==> '0' <= d[i] <= '9')
      && s == d + s[DigitRun(s)..]
  {
    var k := DigitRun(s);
    assert forall i :: 0 <= i < k ==> s[..k][i] == s[i];
  }

  /** What `ParseLabel` found in a label other than "Just now": a digit
      run without a leading zero, then the suffix its value agrees with. */
  lemma ParsedAgo(s: string, e: Elapsed)
    requires ParseLabel(s) == Some(e) && s != "Just now"
    ensures var k := DigitRun(s);
      && 0 < k && (k > 1 ==> s[0] != '0')
      && e == Ago(DecimalValue(s[..k]), e.unit)
      && ParseSuffix(s[k..]) == Some((e.unit, DecimalValue(s[..k]) > 1))
  {
  }

  /** A digit run without a leading zero and a suffix that agrees with its
      value are the label of that many units. */
  lemma LabelFromParts(digits: string, tail: string, u: TimeUnit)
    requires digits != [] && (|digits| > 1 ==> digits[0] != '0')
    requires forall i :: 0 <= i < |digits| ==> '0' <= digits[i] <= '9'
    requires ParseSuffix(tail) == Some((u, DecimalValue(digits) > 1))
    ensures Label(Ago(DecimalValue(digits), u), "") == digits + tail
  {
    DecimalRoundTrip(digits);
    ParseSuffixInverse(u, DecimalValue(digits) > 1, tail);
  }

  /** Whatever reads back was produced by `Label`: with `ParseLabelOfLabel`,
      the two are inverse. */
  lemma LabelOfParseLabel(s: string, e: Elapsed)
    requires ParseLabel(s) == Some(e)
    ensures !e.OnDate? && Label(e, "") == s
  {
    if s != "Just now" {
      ParsedAgo(s, e);
      DigitPrefix(s);
      LabelFromParts(s[..DigitRun(s)], s[DigitRun(s)..], e.unit);
    }
  }

  // ------------------------------------------------------------ shareWord

  /** The text passed to `navigator.share`. */
  function ShareText(word: string, definition: string): (r: string)
    ensures |word| + 5 <= |r| <= |word| + 2 + PreviewLength + 3
    ensures r[..|word| + 2] == word + ": " && r[|r| - 3..] == "..."
  {
    word + ": " + Preview(definition)
  }

  /** The word, a colon, then at most a hundred characters of the
      definition and an ellipsis: the same preview the server sends with
      search results and favourites. */
  lemma ShareTextSpec(row: Api.WordRow)
    ensures var r := ShareText(row.word, row.definition);
      && |r| == |row.word| + 2 + Min(|row.definition|, PreviewLength) + 3
      && r[..|row.word| + 2] == row.word + ": "
      && r[|row.word| + 2..|r| - 3] == Take(row.definition, PreviewLength)
      && r[|r| - 3..] == "..."
      && r == row.word + ": " + Api.Summary(row).definition
  {
    var r := ShareText(row.word, row.definition);
    assert r == (row.word + ": ") + (Take(row.definition, PreviewLength) + "...");
  }

  // -------------------------------------------------------- favourite button

  /** `currentWordId` and whether `#favoriteBtn` has the class `active`. */
  class FavoriteButton {
    var currentWordId: Option<int>
    var active: bool

    constructor ()
      ensures currentWordId == None && !active
    {
      currentWordId := None;
      active := false;
    }

    /** The button shows the server's answer for the displayed word. */
    ghost predicate Mirrors(store: Api.Store, sessionId: string)
      reads this, store
    {
      currentWordId.Some? ==> active == ((currentWordId.value, sessionId) in store.FavoritePairs())
    }

    /** `checkFavoriteStatus(wordId)`: highlight iff the server says so. */
    method CheckFavoriteStatus(store: Api.Store, wordId: int, sessionId: string)
      modifies this
      ensures currentWordId == old(currentWordId)
      ensures active == ((wordId, sessionId) in store.FavoritePairs())
    {
      var reply := store.CheckFavorite(wordId, sessionId);
      active := reply.isFavorite;
    }

    /** `displayWordResult(data)`: remember the id, then ask the server. */
    method Display(store: Api.Store, wordId: int, sessionId: string)
      modifies this
      ensures currentWordId == Some(wordId)
      ensures Mirrors(store, sessionId)
    {
      currentWordId := Some(wordId);
      CheckFavoriteStatus(store, wordId, sessionId);
    }

    /** `toggleFavorite`: nothing without a word; otherwise the action the
        highlight implies is posted, and the highlight flips only when the
        server reports success. `sent` is the posted action. */
    method Toggle(store: Api.Store, sessionId: string, now: int) returns (sent: Option<string>, reply: Option<Api.Reply>)
      requires store.Valid()
      modifies this, store
      ensures store.Valid()
      ensures currentWordId == old(currentWordId)
      ensures old(currentWordId).None? || old(currentWordId).value == 0 ==>
        sent == None && reply == None && active == old(active) && unchanged(store)
      ensures old(currentWordId).Some? && old(currentWordId).value != 0 ==>
        sent == Some(if old(active) then "removeFavorite" else "addFavorite") && reply.Some?
      ensures reply.Some? ==> active == (old(active) != reply.value.Success())
      ensures reply.Some? && old(active) ==>
        store.FavoritePairs() == old(store.FavoritePairs()) - {(currentWordId.value, sessionId)}
      ensures reply.Some? && !old(active) && currentWordId.value in Api.IdsOf(store.words) ==>
        store.FavoritePairs() == old(store.FavoritePairs()) + {(currentWordId.value, sessionId)}
      ensures old(Mirrors(store, sessionId)) ==> Mirrors(store, sessionId)
      ensures reply.Some? && old(active) ==> Mirrors(store, sessionId)
    {
      if currentWordId.None? || currentWordId.value == 0 {
        return None, None;
      }
      var wordId := currentWordId.value;
      var isFavorite := active;
      var r: Api.Reply;
      if isFavorite {
        sent := Some("removeFavorite");
        r := store.RemoveFavorite(wordId, sessionId);
      } else {
        sent := Some("addFavorite");
        r := store.AddFavorite(wordId, sessionId, now);
      }
      reply := Some(r);
      if r.Success() {
        active := !active;
      }
    }
  }
}
