/** The names of the snapshots of a partition: printing, parsing, and choosing the newest. */
module Backups {
  import opened Splitting
  import opened Records

  const MAX_INT64: int := 0x7fff_ffff_ffff_ffff

  // Decimal numerals.

  predicate IsDigit(c: char) {
    '0' <= c <= '9'
  }

  function DigitChar(d: nat): char
    requires d < 10
  {
    '0' + d as char
  }

  function Decimal(n: nat): (s: string)
    ensures s != [] && forall i :: 0 <= i < |s| ==> IsDigit(s[i])
  {
    if n < 10 then [DigitChar(n)] else Decimal(n / 10) + [DigitChar(n % 10)]
  }

  function DigitsValue(s: string): nat
    requires forall i :: 0 <= i < |s| ==> IsDigit(s[i])
  {
    if s == [] then 0 else
      assert IsDigit(s[|s| - 1]);
      DigitsValue(s[..|s| - 1]) * 10 + (s[|s| - 1] - '0') as nat
  }

  /** A decimal int64 with an optional sign; anything else is an error. */
  function ParseInt(s: string): (n: Option<int>)
    ensures n.Some? ==> -MAX_INT64 - 1 <= n.value <= MAX_INT64
  {
    var negative := s != [] && s[0] == '-';
    var digits := if s != [] && (s[0] == '-' || s[0] == '+') then s[1..] else s;
    if digits == [] || exists i :: 0 <= i < |digits| && !IsDigit(digits[i]) then None
    else
      var v: int := DigitsValue(digits);
      if negative then (if v <= MAX_INT64 + 1 then Some(-v) else None)
      else if v <= MAX_INT64 then Some(v) else None
  }

  lemma {:induction false} DecimalRoundTrip(n: nat)
    ensures DigitsValue(Decimal(n)) == n
  {
    if n >= 10 {
      DecimalRoundTrip(n / 10);
      var s := Decimal(n);
      assert s[..|s| - 1] == Decimal(n / 10);
    }
  }

  lemma ParseDecimal(n: nat)
    requires n <= MAX_INT64
    ensures ParseInt(Decimal(n)) == Some(n)
  {
    DecimalRoundTrip(n);
    assert IsDigit(Decimal(n)[0]);
  }

  lemma DecimalInjective(m: nat, n: nat)
    requires Decimal(m) == Decimal(n)
    ensures m == n
  {
    DecimalRoundTrip(m);
    DecimalRoundTrip(n);
  }

  // Names.

  const ROOT := "firescroll/"
  const EXTENSION := ".bdb"

  function KeyPrefix(namespace: string, id: nat): string {
    ROOT + namespace + "/" + Decimal(id) + "-"
  }

  function BackupName(namespace: string, id: nat, offset: nat): string {
    KeyPrefix(namespace, id) + Decimal(offset) + EXTENSION
  }

  /** The text before the first occurrence of sep, or all of it. */
  function Before(s: string, sep: string): string {
    if sep <= s || s == [] then [] else [s[0]] + Before(s[1..], sep)
  }

  function LastSegment(name: string): string {
    var parts := Split(name, '/');
    parts[|parts| - 1]
  }

  /** Indexing the piece after the first dash panics when there is no dash. */
  datatype Parsed = Number(offset: int) | BadNumber | Panic

  function ParseName(name: string): Parsed {
    var pieces := Split(LastSegment(name), '-');
    if |pieces| <= 1 then Panic
    else match ParseInt(Before(pieces[1], EXTENSION))
      case Some(offset) => Number(offset)
      case None => BadNumber
  }

  lemma PanicsIff(name: string)
    ensures ParseName(name) == Panic <==> '-' !in LastSegment(name)
  {
    SplitWithout(LastSegment(name), '-');
  }

  lemma {:induction false} BeforeExtension(digits: string)
    requires forall i :: 0 <= i < |digits| ==> IsDigit(digits[i])
    ensures Before(digits + EXTENSION, EXTENSION) == digits
  {
    var s := digits + EXTENSION;
    if digits != [] {
      assert s[0] == digits[0] && EXTENSION[0] == '.';
      assert s[1..] == digits[1..] + EXTENSION;
      BeforeExtension(digits[1..]);
    } else {
      assert s == EXTENSION;
    }
  }

  lemma LastSegmentOf(front: string, last: string)
    requires '/' !in last
    ensures LastSegment(front + ['/'] + last) == last
  {
    SplitConcat(front, '/', last);
    SplitWithout(last, '/');
  }

  lemma NoDigit(s: string, c: char)
    requires !IsDigit(c) && forall i :: 0 <= i < |s| ==> IsDigit(s[i])
    ensures c !in s
  {
  }

  lemma DecimalHasNo(n: nat, c: char)
    requires !IsDigit(c)
    ensures c !in Decimal(n)
  {
    NoDigit(Decimal(n), c);
  }

  lemma SegmentSplits(id: nat, offset: nat)
    ensures var segment := Decimal(id) + ['-'] + (Decimal(offset) + EXTENSION);
            '/' !in segment && Split(segment, '-') == [Decimal(id), Decimal(offset) + EXTENSION]
  {
    var a, b := Decimal(id), Decimal(offset) + EXTENSION;
    DecimalHasNo(id, '-');
    DecimalHasNo(id, '/');
    DecimalHasNo(offset, '-');
    DecimalHasNo(offset, '/');
    hide Decimal, Split;
    assert EXTENSION == ['.', 'b', 'd', 'b'];
    SplitWithout(a, '-');
    SplitWithout(b, '-');
    SplitConcat(a, '-', b);
  }

  /** Parsing a backup's name gives back the offset it was printed with, whatever the namespace. */
  lemma ParseUndoesPrint(namespace: string, id: nat, offset: nat)
    requires offset <= MAX_INT64
    ensures ParseName(BackupName(namespace, id, offset)) == Number(offset)
  {
    var name := BackupName(namespace, id, offset);
    var segment := Decimal(id) + ['-'] + (Decimal(offset) + EXTENSION);
    assert name == (ROOT + namespace) + ['/'] + segment;
    SegmentSplits(id, offset);
    LastSegmentOf(ROOT + namespace, segment);
    BeforeExtension(Decimal(offset));
    ParseDecimal(offset);
  }

  /** A name as it is printed, and what it parses to. */
  lemma NameOfTwelve(namespace: string)
    ensures BackupName(namespace, 1, 12) == "firescroll/" + namespace + "/1-12.bdb"
    ensures ParseName("firescroll/" + namespace + "/1-12.bdb") == Number(12)
  {
    assert Decimal(1) == "1" && Decimal(12) == "12";
    assert BackupName(namespace, 1, 12) == "firescroll/" + namespace + "/1-12.bdb";
    ParseUndoesPrint(namespace, 1, 12);
  }

  lemma FrontUpTo(a: string, b: string, c: string, sep: char)
    requires sep !in a && sep !in b && a + [sep] <= b + [sep] + c
    ensures a == b
  {
    var s := b + [sep] + c;
    assert s == a + [sep] + s[|a| + 1..];
    FrontUnique(a, s[|a| + 1..], b, c, sep);
  }

  lemma SeparatorBehind(a: string, x: string, b: string, y: string, sep: char)
    requires a + [sep] + x == b + [sep] + y && |a| < |b|
    ensures sep in x
  {
    assert (a + [sep] + x)[|b|] == (b + [sep] + y)[|b|];
    assert x[|b| - |a| - 1] == sep;
  }

  /** The text behind the last separator is determined by the whole. */
  lemma BackUnique(a: string, x: string, b: string, y: string, sep: char)
    requires sep !in x && sep !in y && a + [sep] + x == b + [sep] + y
    ensures a == b && x == y
  {
    if |a| < |b| {
      SeparatorBehind(a, x, b, y, sep);
    } else if |b| < |a| {
      SeparatorBehind(b, y, a, x, sep);
    }
    var s, t := a + [sep] + x, b + [sep] + y;
    assert s[..|a|] == a && t[..|b|] == b && s[|a| + 1..] == x && t[|b| + 1..] == y;
  }

  /** A front that does not end inside the other namespace ends behind it. */
  lemma FrontDetermines(ns: string, a: string, ns': string, a': string, tail: string)
    requires '/' !in a && '-' !in a && '/' !in a' && '-' !in a' && '/' !in tail
    requires var p := ns + ['/'] + (a + ['-']); p <= ns' + ['/'] + (a' + ['-'] + tail) && |p| > |ns'|
    ensures ns == ns' && a == a'
  {
    var p, after := ns + ['/'] + (a + ['-']), a' + ['-'] + tail;
    var s := ns' + ['/'] + after;
    var x := p[|ns'| + 1..];
    assert p == ns' + ['/'] + x && x == s[|ns'| + 1..][..|x|] <= after;
    BackUnique(ns, a + ['-'], ns', x, '/');
    FrontUpTo(a, a', tail, '-');
  }

  function Front(ns: string, a: string): string {
    ns + ['/'] + (a + ['-'])
  }

  lemma FrontIff(ns: string, a: string, ns': string, a': string, tail: string)
    requires '/' !in a && '-' !in a && '/' !in a' && '-' !in a' && '/' !in tail
    ensures Front(ns, a) <= ns' + ['/'] + (a' + ['-'] + tail) <==> (ns == ns' && a == a') || Front(ns, a) <= ns'
  {
    var p, s := Front(ns, a), ns' + ['/'] + (a' + ['-'] + tail);
    assert s == Front(ns', a') + tail;
    if p <= s {
      if |p| <= |ns'| {
        assert p == s[..|p|] == ns'[..|p|];
      } else {
        FrontDetermines(ns, a, ns', a', tail);
      }
    }
  }

  lemma UnderRoot(p: string, s: string)
    ensures ROOT + p <= ROOT + s <==> p <= s
  {
    assert (ROOT + p)[|ROOT|..] == p && (ROOT + s)[|ROOT|..] == s;
  }

  /** Listing by a partition's prefix finds that partition's backups, and those of the namespaces that begin with the
      prefix: a namespace may hold a slash. */
  lemma PrefixIff(ns: string, id: nat, ns': string, id': nat, offset: nat)
    ensures KeyPrefix(ns, id) <= BackupName(ns', id', offset) <==>
            (ns == ns' && id == id') || ns + "/" + Decimal(id) + "-" <= ns'
  {
    DecimalHasNo(id, '-');
    DecimalHasNo(id, '/');
    DecimalHasNo(id', '-');
    DecimalHasNo(id', '/');
    DecimalHasNo(offset, '/');
    hide Decimal, Front;
    var tail := Decimal(offset) + EXTENSION;
    assert EXTENSION == ['.', 'b', 'd', 'b'];
    FrontIff(ns, Decimal(id), ns', Decimal(id'), tail);
    UnderRoot(Front(ns, Decimal(id)), ns' + ['/'] + (Decimal(id') + ['-'] + tail));
    Fronts(ns, Decimal(id), tail);
    Fronts(ns', Decimal(id'), tail);
    if Decimal(id) == Decimal(id') {
      DecimalInjective(id, id');
    }
  }

  lemma Fronts(ns: string, a: string, tail: string)
    ensures ROOT + ns + "/" + a + "-" == ROOT + Front(ns, a) && ns + "/" + a + "-" == Front(ns, a)
    ensures ROOT + ns + "/" + a + "-" + tail == ROOT + (ns + ['/'] + (a + ['-'] + tail))
  {
  }

  /** Partition 1 of namespace "a" is shown a backup of namespace "a/1-x", with that one's offset. */
  lemma ForeignBackupIsListed()
    ensures KeyPrefix("a", 1) <= BackupName("a/1-x", 5, 7) && "a" != "a/1-x"
    ensures ParseName(BackupName("a/1-x", 5, 7)) == Number(7)
  {
    assert Decimal(1) == "1";
    assert "a" + "/" + Decimal(1) + "-" <= "a/1-x";
    PrefixIff("a", 1, "a/1-x", 5, 7);
    ParseUndoesPrint("a/1-x", 5, 7);
  }

  // Choosing the newest.

  datatype Entry = Entry(name: string, offset: int)

  datatype Latest = Found(offset: int, name: string) | BackupNotFound | Panicked

  /** The entries of a page that are looked at: those before the first name that does not parse. */
  function Readable(page: seq<string>): (entries: seq<Entry>) {
    if page == [] || !ParseName(page[0]).Number? then []
    else [Entry(page[0], ParseName(page[0]).offset)] + Readable(page[1..])
  }

  /** The first name that does not parse is one that panics. */
  predicate PagePanics(page: seq<string>) {
    page != [] && (ParseName(page[0]) == Panic || (ParseName(page[0]).Number? && PagePanics(page[1..])))
  }

  function ReadableAll(pages: seq<seq<string>>): (entries: seq<Entry>) {
    if pages == [] then [] else Readable(pages[0]) + ReadableAll(pages[1..])
  }

  predicate Panics(pages: seq<seq<string>>) {
    pages != [] && (PagePanics(pages[0]) || Panics(pages[1..]))
  }

  /** The name at position i is reached, and has no dash in its last segment. */
  ghost predicate PanicsAt(page: seq<string>, i: nat) {
    i < |page| && '-' !in LastSegment(page[i]) && forall j :: 0 <= j < i ==> ParseName(page[j]).Number?
  }

  lemma {:induction false} PagePanicsIff(page: seq<string>)
    ensures PagePanics(page) <==> exists i: nat :: PanicsAt(page, i)
  {
    hide ParseName, LastSegment;
    if page != [] {
      var rest := page[1..];
      PanicsIff(page[0]);
      PagePanicsIff(rest);
      if PagePanics(page) {
        if ParseName(page[0]) == Panic {
          assert PanicsAt(page, 0);
        } else {
          var i: nat :| PanicsAt(rest, i);
          assert forall j :: 0 < j <= i ==> page[j] == rest[j - 1];
          assert PanicsAt(page, i + 1);
        }
      }
      if i: nat :| PanicsAt(page, i) {
        if i > 0 {
          assert forall j :: 0 <= j < i ==> rest[j] == page[j + 1];
          assert PanicsAt(rest, i - 1);
        }
      }
    }
  }

  ghost predicate SomePagePanics(pages: seq<seq<string>>) {
    exists x: nat, i: nat :: x < |pages| && PanicsAt(pages[x], i)
  }

  /** The search panics exactly when some page has a name without a dash in its last segment and every name before it
      on the page parses. */
  lemma {:induction false} SearchPanicsIff(pages: seq<seq<string>>)
    ensures Panics(pages) <==> SomePagePanics(pages)
  {
    hide PanicsAt, PagePanics;
    if pages != [] {
      var rest := pages[1..];
      PagePanicsIff(pages[0]);
      SearchPanicsIff(rest);
      if x: nat, i: nat :| x < |rest| && PanicsAt(rest[x], i) {
        assert PanicsAt(pages[x + 1], i);
      }
      if x: nat, i: nat :| x < |pages| && PanicsAt(pages[x], i) {
        assert x > 0 ==> PanicsAt(rest[x - 1], i);
      }
    }
  }

  ghost predicate IsFirst(entries: seq<Entry>, i: nat, offset: int, name: string) {
    i < |entries| && entries[i] == Entry(name, offset) && forall j :: 0 <= j < i ==> entries[j].offset != offset
  }

  /** The largest positive offset among the entries and the first name that carries it; 0 and no name when there is
      none. */
  ghost predicate Newest(entries: seq<Entry>, offset: int, name: string) {
    && offset >= 0
    && (forall e :: e in entries ==> e.offset <= offset)
    && (if offset == 0 then name == "" else exists i: nat :: IsFirst(entries, i, offset, name))
  }

  lemma NewestIsThere(entries: seq<Entry>, offset: int, name: string)
    requires Newest(entries, offset, name) && offset != 0
    ensures Entry(name, offset) in entries
  {
    var i: nat :| IsFirst(entries, i, offset, name);
    assert entries[i] in entries;
  }

  lemma FirstIsUnique(entries: seq<Entry>, i: nat, j: nat, offset: int, a: string, b: string)
    requires IsFirst(entries, i, offset, a) && IsFirst(entries, j, offset, b)
    ensures a == b
  {
    assert i == j;
  }

  lemma NewestIsUnique(entries: seq<Entry>, m: int, a: string, n: int, b: string)
    requires Newest(entries, m, a) && Newest(entries, n, b)
    ensures m == n && a == b
  {
    if m != 0 {
      NewestIsThere(entries, m, a);
    }
    if n != 0 {
      NewestIsThere(entries, n, b);
    }
    if m == n && m != 0 {
      var i: nat :| IsFirst(entries, i, m, a);
      var j: nat :| IsFirst(entries, j, n, b);
      FirstIsUnique(entries, i, j, m, a, b);
    }
  }

  lemma NewestNext(entries: seq<Entry>, offset: int, name: string, e: Entry)
    requires Newest(entries, offset, name)
    ensures if e.offset > offset then Newest(entries + [e], e.offset, e.name) else Newest(entries + [e], offset, name)
  {
    var longer := entries + [e];
    if e.offset > offset {
      assert forall j :: 0 <= j < |entries| ==> longer[j] == entries[j] && entries[j] in entries;
      assert IsFirst(longer, |entries|, e.offset, e.name);
    } else if offset != 0 {
      var i: nat :| IsFirst(entries, i, offset, name);
      assert IsFirst(longer, i, offset, name);
    }
  }

  ghost predicate IsLatest(pages: seq<seq<string>>, latest: Latest) {
    match latest
    case Found(offset, name) => !Panics(pages) && offset > 0 && Newest(ReadableAll(pages), offset, name)
    case BackupNotFound => !Panics(pages) && Newest(ReadableAll(pages), 0, "")
    case Panicked => Panics(pages)
  }

  /** One page of the listing: the callback updates the newest offset and name. */
  method LookAtPage(page: seq<string>, offset: int, name: string, ghost seen: seq<Entry>)
    returns (panicked: bool, newestOffset: int, newestBackup: string)
    requires Newest(seen, offset, name)
    ensures panicked <==> PagePanics(page)
    ensures !panicked ==> Newest(seen + Readable(page), newestOffset, newestBackup)
  {
    hide ParseName, Newest;
    newestOffset, newestBackup := offset, name;
    var j := 0;
    ghost var looked: seq<Entry> := [];
    assert seen + looked == seen;
    while j < |page|
      invariant 0 <= j <= |page|
      invariant looked + Readable(page[j..]) == Readable(page) && PagePanics(page[j..]) == PagePanics(page)
      invariant Newest(seen + looked, newestOffset, newestBackup)
    {
      assert page[j..][1..] == page[j + 1..];
      match ParseName(page[j]) {
        case Panic =>
          panicked := true;
          return;
        case BadNumber =>
          assert looked == Readable(page);
          panicked := false;
          return;
        case Number(thisOffset) =>
          NewestNext(seen + looked, newestOffset, newestBackup, Entry(page[j], thisOffset));
          assert seen + (looked + [Entry(page[j], thisOffset)]) == (seen + looked) + [Entry(page[j], thisOffset)];
          looked := looked + [Entry(page[j], thisOffset)];
          if thisOffset > newestOffset {
            newestOffset, newestBackup := thisOffset, page[j];
          }
      }
      j := j + 1;
    }
    assert looked == Readable(page);
    panicked := false;
  }

  method GetLatestBackupOffset(pages: seq<seq<string>>) returns (latest: Latest)
    ensures IsLatest(pages, latest)
  {
    hide ParseName, Readable, PagePanics;
    var newestBackup, newestOffset := "", 0;
    ghost var seen: seq<Entry> := [];
    for i := 0 to |pages|
      invariant seen + ReadableAll(pages[i..]) == ReadableAll(pages) && Panics(pages[i..]) == Panics(pages)
      invariant Newest(seen, newestOffset, newestBackup)
    {
      assert pages[i..][1..] == pages[i + 1..];
      var panicked;
      panicked, newestOffset, newestBackup := LookAtPage(pages[i], newestOffset, newestBackup, seen);
      if panicked {
        return Panicked;
      }
      seen := seen + Readable(pages[i]);
    }
    assert seen == ReadableAll(pages);
    ReadableNamed(pages);
    NewestIsNamed(seen, newestOffset, newestBackup);
    latest := if newestBackup == "" then BackupNotFound else Found(newestOffset, newestBackup);
  }

  lemma NewestIsNamed(entries: seq<Entry>, offset: int, name: string)
    requires Newest(entries, offset, name) && forall e :: e in entries ==> e.name != ""
    ensures name == "" <==> offset == 0
  {
    if offset != 0 {
      NewestIsThere(entries, offset, name);
    }
  }

  lemma EmptyNamePanics()
    ensures ParseName("") == Panic
  {
    assert Split("", '/') == [""];
    PanicsIff("");
  }

  lemma {:induction false} PageNamed(page: seq<string>)
    ensures forall e :: e in Readable(page) ==> e.name != ""
  {
    if page != [] {
      EmptyNamePanics();
      PageNamed(page[1..]);
    }
  }

  lemma {:induction false} ReadableNamed(pages: seq<seq<string>>)
    ensures forall e :: e in ReadableAll(pages) ==> e.name != ""
  {
    if pages != [] {
      PageNamed(pages[0]);
      ReadableNamed(pages[1..]);
    }
  }

  /** No number that parses is beyond an int64. */
  lemma {:induction false} PageFits(page: seq<string>)
    ensures forall e :: e in Readable(page) ==> -MAX_INT64 - 1 <= e.offset <= MAX_INT64
  {
    hide ParseInt;
    if page != [] && ParseName(page[0]).Number? {
      PageFits(page[1..]);
    }
  }

  lemma {:induction false} ReadableFits(pages: seq<seq<string>>)
    ensures forall e :: e in ReadableAll(pages) ==> -MAX_INT64 - 1 <= e.offset <= MAX_INT64
  {
    if pages != [] {
      PageFits(pages[0]);
      ReadableFits(pages[1..]);
    }
  }

  // The search by position: which names it comes to, and which one it takes.

  datatype Place = Place(page: nat, at: nat)

  predicate Earlier(a: Place, b: Place) {
    a.page < b.page || (a.page == b.page && a.at < b.at)
  }

  /** The search comes to a name when all names of its page up to it parse, and this is the entry it makes of it. */
  ghost predicate IsEntryAt(pages: seq<seq<string>>, p: Place, e: Entry) {
    && p.page < |pages| && p.at < |pages[p.page]|
    && (forall j :: 0 <= j <= p.at ==> ParseName(pages[p.page][j]).Number?)
    && e.name == pages[p.page][p.at] && ParseName(e.name) == Number(e.offset)
  }

  /** The entries are those the search comes to, in order of place. */
  ghost predicate Placed(pages: seq<seq<string>>, entries: seq<Entry>, places: seq<Place>) {
    && |places| == |entries|
    && (forall k, l :: 0 <= k < l < |places| ==> Earlier(places[k], places[l]))
    && (forall k :: 0 <= k < |places| ==> IsEntryAt(pages, places[k], entries[k]))
    && (forall p, e :: IsEntryAt(pages, p, e) ==> p in places)
  }

  lemma {:induction false} ReadablePrefix(page: seq<string>)
    ensures |Readable(page)| <= |page|
    ensures forall k :: 0 <= k < |Readable(page)| ==>
            && ParseName(page[k]).Number? && Readable(page)[k] == Entry(page[k], ParseName(page[k]).offset)
    ensures |Readable(page)| < |page| ==> !ParseName(page[|Readable(page)|]).Number?
  {
    hide ParseName;
    if page != [] && ParseName(page[0]).Number? {
      ReadablePrefix(page[1..]);
      assert Readable(page)[1..] == Readable(page[1..]);
    }
  }

  lemma {:induction false} ReadableAllNext(pages: seq<seq<string>>, page: seq<string>)
    ensures ReadableAll(pages + [page]) == ReadableAll(pages) + Readable(page)
  {
    hide Readable;
    if pages == [] {
      assert pages + [page] == [page];
      assert ReadableAll([page]) == Readable(page) + ReadableAll([]);
    } else {
      assert (pages + [page])[1..] == pages[1..] + [page];
      ReadableAllNext(pages[1..], page);
    }
  }

  lemma PlacedNext(pages: seq<seq<string>>, entries: seq<Entry>, places: seq<Place>, page: seq<string>)
    returns (places': seq<Place>)
    requires Placed(pages, entries, places)
    ensures Placed(pages + [page], entries + Readable(page), places')
  {
    hide ParseName, Readable;
    ReadablePrefix(page);
    var n, m := |Readable(page)|, |pages|;
    var longer, more := pages + [page], seq(n, k requires 0 <= k < n => Place(m, k));
    places' := places + more;
    forall k | 0 <= k < |places'|
      ensures IsEntryAt(longer, places'[k], (entries + Readable(page))[k])
    {
      if k < |places| {
        EntryStays(pages, page, places[k], entries[k]);
      } else {
        assert places'[k] == Place(m, k - |places|) && longer[m] == page;
      }
    }
    forall p, e | IsEntryAt(longer, p, e)
      ensures p in places'
    {
      if p.page < m {
        assert IsEntryAt(pages, p, e);
      } else {
        assert p == more[p.at];
      }
    }
  }

  lemma EntryStays(pages: seq<seq<string>>, page: seq<string>, p: Place, e: Entry)
    requires IsEntryAt(pages, p, e)
    ensures IsEntryAt(pages + [page], p, e)
  {
  }

  lemma {:induction false} AllPlaced(pages: seq<seq<string>>) returns (places: seq<Place>)
    ensures Placed(pages, ReadableAll(pages), places)
    decreases |pages|
  {
    hide ParseName, Readable;
    if pages == [] {
      places := [];
    } else {
      var n := |pages| - 1;
      assert pages == pages[..n] + [pages[n]];
      ReadableAllNext(pages[..n], pages[n]);
      places := AllPlaced(pages[..n]);
      places := PlacedNext(pages[..n], ReadableAll(pages[..n]), places, pages[n]);
    }
  }

  /** An entry that the search comes to, the largest of all, and the first of those. */
  ghost predicate TakenAt(pages: seq<seq<string>>, p: Place, e: Entry) {
    && IsEntryAt(pages, p, e)
    && (forall q, o :: IsEntryAt(pages, q, o) ==> o.offset <= e.offset)
    && (forall q, o :: IsEntryAt(pages, q, o) && Earlier(q, p) ==> o.offset != e.offset)
  }

  lemma EntryIndex(pages: seq<seq<string>>, entries: seq<Entry>, places: seq<Place>, p: Place, e: Entry)
    returns (k: nat)
    requires Placed(pages, entries, places) && IsEntryAt(pages, p, e)
    ensures k < |entries| && places[k] == p && entries[k] == e && e in entries
  {
    hide IsEntryAt;
    k :| 0 <= k < |places| && places[k] == p;
    OneEntry(pages, p, e, entries[k]);
  }

  lemma NewestIsTaken(pages: seq<seq<string>>, entries: seq<Entry>, places: seq<Place>, offset: int, name: string)
    requires offset > 0 && Placed(pages, entries, places) && Newest(entries, offset, name)
    ensures exists p :: TakenAt(pages, p, Entry(name, offset))
  {
    hide IsEntryAt;
    var i: nat :| IsFirst(entries, i, offset, name);
    forall q, o | IsEntryAt(pages, q, o)
      ensures o.offset <= offset && (Earlier(q, places[i]) ==> o.offset != offset)
    {
      var k := EntryIndex(pages, entries, places, q, o);
      assert i < k ==> Earlier(places[i], places[k]);
    }
    assert TakenAt(pages, places[i], Entry(name, offset));
  }

  lemma TakenIsNewest(pages: seq<seq<string>>, entries: seq<Entry>, places: seq<Place>, offset: int, name: string,
                      p: Place)
    requires offset > 0 && Placed(pages, entries, places) && TakenAt(pages, p, Entry(name, offset))
    ensures Newest(entries, offset, name)
  {
    hide IsEntryAt;
    var i := EntryIndex(pages, entries, places, p, Entry(name, offset));
    forall k | 0 <= k < |entries|
      ensures entries[k].offset <= offset && (k < i ==> entries[k].offset != offset)
    {
      assert IsEntryAt(pages, places[k], entries[k]);
    }
    assert IsFirst(entries, i, offset, name);
  }

  lemma OneEntry(pages: seq<seq<string>>, p: Place, e: Entry, o: Entry)
    requires IsEntryAt(pages, p, e) && IsEntryAt(pages, p, o)
    ensures e == o
  {
  }

  lemma NothingIsNewest(pages: seq<seq<string>>, entries: seq<Entry>, places: seq<Place>)
    requires Placed(pages, entries, places)
    ensures Newest(entries, 0, "") <==> forall p, e :: IsEntryAt(pages, p, e) ==> e.offset <= 0
  {
    hide IsEntryAt;
    forall p, e | IsEntryAt(pages, p, e)
      ensures e in entries
    {
      var k := EntryIndex(pages, entries, places, p, e);
    }
    forall e | e in entries
      ensures exists p :: IsEntryAt(pages, p, e)
    {
      var k :| 0 <= k < |entries| && entries[k] == e;
      assert IsEntryAt(pages, places[k], e);
    }
  }

  /** What the search finds, in terms of the names alone: it panics as said; otherwise it takes the largest offset of
      all names that it comes to, in the first place where that is, when it is positive. */
  lemma LatestInFull(pages: seq<seq<string>>, latest: Latest)
    ensures IsLatest(pages, latest) <==>
            match latest
            case Panicked => SomePagePanics(pages)
            case BackupNotFound => !SomePagePanics(pages) && forall p, e :: IsEntryAt(pages, p, e) ==> e.offset <= 0
            case Found(offset, name) =>
              !SomePagePanics(pages) && offset > 0 && exists p :: TakenAt(pages, p, Entry(name, offset))
  {
    hide Placed, Newest, TakenAt, IsEntryAt, ReadableAll, Panics;
    SearchPanicsIff(pages);
    var entries := ReadableAll(pages);
    var places := AllPlaced(pages);
    NothingIsNewest(pages, entries, places);
    if latest.Found? && latest.offset > 0 {
      var offset, name := latest.offset, latest.name;
      if Newest(entries, offset, name) {
        NewestIsTaken(pages, entries, places, offset, name);
      }
      if p :| TakenAt(pages, p, Entry(name, offset)) {
        TakenIsNewest(pages, entries, places, offset, name, p);
      }
    }
  }

  ghost predicate IsBackupOf(name: string, namespace: string, id: nat, offsets: set<nat>) {
    exists o :: o in offsets && name == BackupName(namespace, id, o)
  }

  /** The pages hold the names of the partition's backups, in any order, and no other names. */
  ghost predicate Lists(pages: seq<seq<string>>, namespace: string, id: nat, offsets: set<nat>) {
    && (forall o :: o in offsets ==> o <= MAX_INT64)
    && (forall i, j :: 0 <= i < |pages| && 0 <= j < |pages[i]| ==> IsBackupOf(pages[i][j], namespace, id, offsets))
    && (forall o :: o in offsets ==> exists i :: 0 <= i < |pages| && BackupName(namespace, id, o) in pages[i])
  }

  lemma ParseBackup(name: string, namespace: string, id: nat, offsets: set<nat>) returns (o: nat)
    requires IsBackupOf(name, namespace, id, offsets) && forall o :: o in offsets ==> o <= MAX_INT64
    ensures o in offsets && name == BackupName(namespace, id, o) && ParseName(name) == Number(o)
  {
    o :| o in offsets && name == BackupName(namespace, id, o);
    ParseUndoesPrint(namespace, id, o);
  }

  lemma {:induction false} ReadableOfBackups(page: seq<string>, namespace: string, id: nat, offsets: set<nat>)
    requires forall j :: 0 <= j < |page| ==> IsBackupOf(page[j], namespace, id, offsets)
    requires forall o :: o in offsets ==> o <= MAX_INT64
    ensures !PagePanics(page)
    ensures forall e :: e in Readable(page) <==>
            e.offset in offsets && e.name == BackupName(namespace, id, e.offset) && e.name in page
  {
    if page != [] {
      var o := ParseBackup(page[0], namespace, id, offsets);
      var rest := page[1..];
      assert forall j :: 0 <= j < |rest| ==> rest[j] == page[j + 1];
      ReadableOfBackups(rest, namespace, id, offsets);
      assert page == [page[0]] + rest;
      forall e |
        e in Readable(page) || (e.offset in offsets && e.name == BackupName(namespace, id, e.offset) && e.name in page)
        ensures e in Readable(page)
        ensures e.offset in offsets && e.name == BackupName(namespace, id, e.offset) && e.name in page
      {
        if e.offset in offsets && e.name == BackupName(namespace, id, e.offset) {
          ParseUndoesPrint(namespace, id, e.offset);
        }
      }
    }
  }

  lemma {:induction false} ReadableAllOfBackups(pages: seq<seq<string>>, namespace: string, id: nat, offsets: set<nat>)
    requires forall i, j :: 0 <= i < |pages| && 0 <= j < |pages[i]| ==> IsBackupOf(pages[i][j], namespace, id, offsets)
    requires forall o :: o in offsets ==> o <= MAX_INT64
    ensures !Panics(pages)
    ensures forall e :: e in ReadableAll(pages) ==> e.offset in offsets && e.name == BackupName(namespace, id, e.offset)
    ensures forall i, o :: 0 <= i < |pages| && o in offsets && BackupName(namespace, id, o) in pages[i] ==>
              Entry(BackupName(namespace, id, o), o) in ReadableAll(pages)
  {
    if pages != [] {
      ReadableOfBackups(pages[0], namespace, id, offsets);
      var rest := pages[1..];
      assert forall i :: 0 <= i < |rest| ==> rest[i] == pages[i + 1];
      ReadableAllOfBackups(rest, namespace, id, offsets);
      forall i, o | 0 <= i < |pages| && o in offsets && BackupName(namespace, id, o) in pages[i]
        ensures Entry(BackupName(namespace, id, o), o) in ReadableAll(pages)
      {
        if i == 0 {
          assert Entry(BackupName(namespace, id, o), o) in Readable(pages[0]);
        } else {
          assert BackupName(namespace, id, o) in rest[i - 1];
        }
      }
    }
  }

  lemma {:induction false} FirstWith(entries: seq<Entry>, e: Entry) returns (i: nat)
    requires e in entries
    ensures i < |entries| && entries[i].offset == e.offset && IsFirst(entries, i, e.offset, entries[i].name)
  {
    if entries[0].offset == e.offset {
      i := 0;
    } else {
      assert entries == [entries[0]] + entries[1..];
      i := FirstWith(entries[1..], e);
      i := i + 1;
    }
  }

  /** However a partition's backups are spread over pages, the search finds the largest positive offset among
      them and the name printed for it. */
  lemma NewestIsLargest(pages: seq<seq<string>>, namespace: string, id: nat, offsets: set<nat>, offset: int,
                        name: string)
    requires Lists(pages, namespace, id, offsets)
    ensures !Panics(pages)
    ensures Newest(ReadableAll(pages), offset, name) <==>
            && offset >= 0
            && (forall o :: o in offsets ==> o <= offset)
            && (if offset == 0 then name == "" else offset in offsets && name == BackupName(namespace, id, offset))
  {
    hide BackupName, ParseName, Readable;
    ReadableAllOfBackups(pages, namespace, id, offsets);
    var entries := ReadableAll(pages);
    forall o | o in offsets
      ensures Entry(BackupName(namespace, id, o), o) in entries
    {
      var i :| 0 <= i < |pages| && BackupName(namespace, id, o) in pages[i];
    }
    assert forall i :: 0 <= i < |entries| ==> entries[i] in entries;
    if offset > 0 && offset in offsets {
      var i := FirstWith(entries, Entry(BackupName(namespace, id, offset), offset));
      assert entries[i] in entries;
    }
  }
}
