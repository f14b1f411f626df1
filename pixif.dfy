/** The image pipeline of pixif.py: an image's decoded EXIF map is flattened
    into a tag dictionary seeded with the file's base name, a capture
    timestamp is chosen from the datetime tags, expanded into calendar
    fields, and the destination template is bound to the result. */
module Pixif {
  import opened Wrappers
  import opened Text
  import opened Paths
  import opened Calendar
  import opened Template

  /** `TEST_CONFIG['dst']` and `TEST_CONFIG['saveas']`. */
  const TEST_DST: string := "test-out"
  const TEST_SAVEAS: string := "{year}/{year}-{month}-{day}/{name}"

  /** `EXIF_DATETIME_TAGS`, in the order they are tried. */
  const EXIF_DATETIME_TAGS: seq<string> := ["DateTimeOriginal", "DateTimeDigitized", "DateTime"]

  /** The identifiers `get_tags` skips as thumbnails. */
  const THUMBNAIL_TAGS: seq<string> := ["JPEGThumbnail", "TIFFThumbnail"]

  /** `DATETIME_TUPLE_TAGS[1]`: the keys the fields of
      `DATETIME_TUPLE_TAGS[0]` are stored under, in field order. */
  const DATETIME_TUPLE_KEYS: seq<string> :=
    ["year", "month", "day", "hour", "minute", "second", "weekday", "yearday"]

  // ---------------------------------------------------------------------
  // Tag normaliser (get_tags)
  // ---------------------------------------------------------------------

  /** The key an identifier contributes: the second whitespace token, for
      identifiers that are not thumbnails and have at least two tokens
      (`tag.split()[1]` raises `IndexError` otherwise, and the tag is
      dropped). */
  function TagKey(id: string): Option<string>
  {
    if id in THUMBNAIL_TAGS then None
    else
      var ws := Split(id);
      if |ws| >= 2 then Some(ws[1]) else None
  }

  /** An identifier written as words separated by single spaces
      ("EXIF DateTimeOriginal") contributes its second word. */
  lemma TagKeyOfIdentifier(ws: seq<string>)
    requires |ws| >= 2
    requires forall i :: 0 <= i < |ws| ==> IsWord(ws[i])
    ensures TagKey(Unwords(ws)) == Some(ws[1])
  {
    SplitUnwords(ws);
    TagKeyIsSecondWord(Unwords(ws));
  }

  /** Any identifier of two or more words contributes its second word. */
  lemma TagKeyIsSecondWord(id: string)
    requires |Split(id)| >= 2
    ensures TagKey(id) == Some(Split(id)[1])
  {
    SplitNotThumbnail(id);
  }

  /** Thumbnail identifiers are single words. */
  lemma SplitNotThumbnail(id: string)
    requires |Split(id)| >= 2
    ensures id !in THUMBNAIL_TAGS
  {
    ThumbnailsAreWords();
    assert id != "JPEGThumbnail" && id != "TIFFThumbnail";
  }

  lemma ThumbnailsAreWords()
    ensures Split("JPEGThumbnail") == ["JPEGThumbnail"]
    ensures Split("TIFFThumbnail") == ["TIFFThumbnail"]
  {
    assert IsWord("JPEGThumbnail");
    assert IsWord("TIFFThumbnail");
    SplitWord("JPEGThumbnail");
    SplitWord("TIFFThumbnail");
  }

  /** A one-word identifier contributes nothing; both thumbnail identifiers
      are such words, so their explicit skip never changes the result. */
  lemma TagKeyOfWord(id: string)
    requires IsWord(id)
    ensures TagKey(id) == None
  {
    SplitWord(id);
  }

  /** The least identifier of a non-empty set in Python's string order. */
  method Least(s: set<string>) returns (m: string)
    requires s != {}
    ensures m in s
    ensures forall x :: x in s && x != m ==> Less(m, x)
  {
    m :| m in s;
    var rest := s - {m};
    while rest != {}
      invariant rest <= s && m in s && m !in rest
      invariant forall x :: x in s && x !in rest && x != m ==> Less(m, x)
      decreases rest
    {
      var y :| y in rest;
      LessTotal(m, y);
      if Less(y, m) {
        forall x | x in s && x !in rest && x != y
          ensures Less(y, x)
        {
          if x != m {
            LessTransitive(y, m, x);
          }
        }
        m := y;
      }
      rest := rest - {y};
    }
  }

  /** `tags = self.exif.keys(); tags.sort()`: the identifiers in ascending
      order, each exactly once. */
  method SortedIdentifiers(keys: set<string>) returns (ids: seq<string>)
    ensures forall x :: x in keys <==> x in ids
    ensures forall p, q :: 0 <= p < q < |ids| ==> Less(ids[p], ids[q])
  {
    ids := [];
    var rest := keys;
    while rest != {}
      invariant rest <= keys
      invariant forall x :: x in keys <==> x in ids || x in rest
      invariant forall p, x :: 0 <= p < |ids| && x in rest ==> Less(ids[p], x)
      invariant forall p, q :: 0 <= p < q < |ids| ==> Less(ids[p], ids[q])
      decreases rest
    {
      var m := Least(rest);
      ids := ids + [m];
      rest := rest - {m};
    }
  }

  /** `id` is the least identifier of `exif` that contributes key `k`. */
  ghost predicate IsFirstId(exif: map<string, string>, k: string, id: string)
  {
    && id in exif && TagKey(id) == Some(k)
    && forall j :: j in exif && TagKey(j) == Some(k) ==> !Less(j, id)
  }

  /** Every non-empty finite set of strings has a least element. */
  lemma {:induction false} LeastExists(s: set<string>)
    requires s != {}
    ensures exists m :: m in s && forall x :: x in s ==> !Less(x, m)
    decreases s
  {
    var x :| x in s;
    if s == {x} {
      LessIrreflexive(x);
      assert forall y :: y in s ==> y == x;
    } else {
      LeastExists(s - {x});
      var m :| m in s - {x} && forall y :: y in s - {x} ==> !Less(y, m);
      LeastWithOneMore(s, x, m);
    }
  }

  /** The least of `s` without `x`, compared with `x`, gives the least of `s`. */
  lemma LeastWithOneMore(s: set<string>, x: string, m: string)
    requires x in s && m in s
    requires forall y :: y in s && y != x ==> !Less(y, m)
    ensures exists w :: w in s && forall y :: y in s ==> !Less(y, w)
  {
    if Less(x, m) {
      forall y | y in s
        ensures !Less(y, x)
      {
        if y == x {
          LessIrreflexive(x);
        } else if Less(y, x) {
          LessTransitive(y, x, m);
        }
      }
      assert x in s;
    } else {
      assert forall y :: y in s ==> !Less(y, m);
    }
  }

  lemma FirstIdUnique(exif: map<string, string>, k: string, a: string, b: string)
    requires IsFirstId(exif, k, a) && IsFirstId(exif, k, b)
    ensures a == b
  {
    LessTotal(a, b);
  }

  /** The keys the identifiers of `exif` contribute. */
  ghost function NewKeys(exif: map<string, string>): set<string>
  {
    set id | id in exif && TagKey(id).Some? :: TagKey(id).value
  }

  /** The least identifier contributing `k`. */
  ghost function FirstId(exif: map<string, string>, k: string): (id: string)
    requires k in NewKeys(exif)
    ensures id in exif && TagKey(id) == Some(k)
  {
    var ids := set j | j in exif && TagKey(j) == Some(k);
    var w :| w in exif && TagKey(w).Some? && TagKey(w).value == k;
    assert w in ids;
    LeastExists(ids);
    var id :| id in ids && forall x :: x in ids ==> !Less(x, id);
    id
  }

  /** `FirstId` picks the least contributing identifier. */
  lemma FirstIdIsFirst(exif: map<string, string>, k: string)
    requires k in NewKeys(exif)
    ensures IsFirstId(exif, k, FirstId(exif, k))
  {
    var ids := set j | j in exif && TagKey(j) == Some(k);
    var w :| w in exif && TagKey(w).Some? && TagKey(w).value == k;
    assert w in ids;
    LeastExists(ids);
  }

  /** The tag dictionary `get_tags` leaves behind, stated without reference
      to the loop: the entries already present are untouched; every other
      key some identifier contributes is added with the value of the least
      such identifier. */
  ghost function Normalize(seed: map<string, string>, exif: map<string, string>): map<string, string>
  {
    map k | k in seed.Keys + NewKeys(exif) :: if k in seed then seed[k] else exif[FirstId(exif, k)]
  }

  /** First writer wins under sorted order: when several identifiers share a
      key that was not seeded, the value kept is that of the least of them. */
  lemma NormalizeLeastWins(seed: map<string, string>, exif: map<string, string>, a: string, k: string)
    requires a in exif && TagKey(a) == Some(k) && k !in seed
    requires forall j :: j in exif && TagKey(j) == Some(k) && j != a ==> Less(a, j)
    ensures k in Normalize(seed, exif) && Normalize(seed, exif)[k] == exif[a]
  {
    assert k in NewKeys(exif);
    forall j | j in exif && TagKey(j) == Some(k)
      ensures !Less(j, a)
    {
      if j == a {
        LessIrreflexive(a);
      } else {
        LessAsymmetric(a, j);
      }
    }
    FirstIdIsFirst(exif, k);
    FirstIdUnique(exif, k, a, FirstId(exif, k));
  }

  /** Normalisation only adds: every seeded entry keeps its value, and a key
      is present afterwards exactly when it was seeded or some identifier
      contributes it. */
  lemma NormalizeExtends(seed: map<string, string>, exif: map<string, string>)
    ensures forall k :: k in seed ==> k in Normalize(seed, exif) && Normalize(seed, exif)[k] == seed[k]
    ensures forall k :: k in Normalize(seed, exif) <==>
                        k in seed || exists id :: id in exif && TagKey(id) == Some(k)
  {
    forall k | k in Normalize(seed, exif) && k !in seed
      ensures exists id :: id in exif && TagKey(id) == Some(k)
    {
      var id := FirstId(exif, k);
    }
  }

  // ---------------------------------------------------------------------
  // Datetime resolver
  // ---------------------------------------------------------------------

  /** `[e for e in names if e in tags]`. */
  function Present(names: seq<string>, tags: map<string, string>): (c: seq<string>)
    ensures forall n :: n in c <==> n in names && n in tags
    ensures |c| <= |names|
  {
    if names == [] then []
    else if names[0] in tags then [names[0]] + Present(names[1..], tags)
    else Present(names[1..], tags)
  }

  /** The datetime tag names tried, in `EXIF_DATETIME_TAGS` order. */
  function Candidates(tags: map<string, string>): seq<string>
  {
    Present(EXIF_DATETIME_TAGS, tags)
  }

  /** Filtering keeps the order of the names: the names present in `a + b`
      are those present in `a`, followed by those present in `b`. */
  lemma {:induction false} PresentAppend(a: seq<string>, b: seq<string>, tags: map<string, string>)
    ensures Present(a + b, tags) == Present(a, tags) + Present(b, tags)
  {
    if a == [] {
      assert a + b == b;
    } else {
      assert (a + b)[0] == a[0] && (a + b)[1..] == a[1..] + b;
      PresentAppend(a[1..], b, tags);
    }
  }

  /** Filtering one name keeps it exactly when it is present. */
  lemma PresentOne(a: string, tags: map<string, string>)
    ensures Present([a], tags) == if a in tags then [a] else []
  {
    assert [a][1..] == [];
  }

  /** Filtering three names keeps those present, in their order. */
  lemma PresentThree(a: string, b: string, c: string, tags: map<string, string>)
    ensures Present([a, b, c], tags)
         == (if a in tags then [a] else []) + (if b in tags then [b] else []) + (if c in tags then [c] else [])
  {
    assert [a, b, c] == [a] + [b] + [c];
    PresentAppend([a] + [b], [c], tags);
    PresentAppend([a], [b], tags);
    PresentOne(a, tags);
    PresentOne(b, tags);
    PresentOne(c, tags);
  }

  /** The candidates, spelled out: each datetime tag present, in the order
      of `EXIF_DATETIME_TAGS`, so a later candidate is always a later tag. */
  lemma CandidatesInOrder(tags: map<string, string>)
    ensures Candidates(tags)
         == (if "DateTimeOriginal" in tags then ["DateTimeOriginal"] else [])
          + (if "DateTimeDigitized" in tags then ["DateTimeDigitized"] else [])
          + (if "DateTime" in tags then ["DateTime"] else [])
  {
    PresentThree("DateTimeOriginal", "DateTimeDigitized", "DateTime", tags);
  }

  /** The parse outcomes of one value against a list of formats, in order. */
  function Tries(s: string, fmts: seq<string>): (r: seq<Option<DateTime>>)
    requires forall f :: f in fmts ==> f in EXIF_DATETIME_STRF
    ensures |r| == |fmts|
    ensures forall i :: 0 <= i < |r| ==> r[i] == Strptime(s, fmts[i])
  {
    if fmts == [] then [] else Tries(s, fmts[..|fmts| - 1]) + [Strptime(s, fmts[|fmts| - 1])]
  }

  /** Every parse attempt of the nested loops of `get_datetime`, in the
      order they are made: each candidate name, each format. */
  function Attempts(tags: map<string, string>, names: seq<string>): (r: seq<Option<DateTime>>)
    requires forall n :: n in names ==> n in tags
    ensures |r| == |names| * |EXIF_DATETIME_STRF|
    ensures forall i :: 0 <= i < |r| && r[i].Some? ==> r[i].value.Valid()
  {
    if names == [] then []
    else Attempts(tags, names[..|names| - 1]) + Tries(tags[names[|names| - 1]], EXIF_DATETIME_STRF)
  }

  /** The last present value of a sequence, if any. */
  function LastSome<T>(xs: seq<Option<T>>): Option<T>
  {
    if xs == [] then None
    else if xs[|xs| - 1].Some? then xs[|xs| - 1]
    else LastSome(xs[..|xs| - 1])
  }

  /** The first present value of a sequence, if any. */
  function FirstSome<T>(xs: seq<Option<T>>): Option<T>
  {
    if xs == [] then None
    else if xs[0].Some? then xs[0]
    else FirstSome(xs[1..])
  }

  /** `LastSome` picks the present value after which nothing is present. */
  lemma {:induction false} LastSomeIff<T>(xs: seq<Option<T>>, v: T)
    ensures LastSome(xs) == Some(v) <==>
            exists i :: 0 <= i < |xs| && xs[i] == Some(v) && forall j :: i < j < |xs| ==> xs[j].None?
  {
    if xs != [] {
      var n := |xs| - 1;
      LastSomeIff(xs[..n], v);
      if xs[n].None? {
        if LastSome(xs) == Some(v) {
          var i :| 0 <= i < n && xs[..n][i] == Some(v) && forall j :: i < j < n ==> xs[..n][j].None?;
          assert xs[i] == Some(v) && forall j :: i < j < |xs| ==> xs[j].None?;
        }
        if exists i :: 0 <= i < |xs| && xs[i] == Some(v) && forall j :: i < j < |xs| ==> xs[j].None? {
          var i :| 0 <= i < |xs| && xs[i] == Some(v) && forall j :: i < j < |xs| ==> xs[j].None?;
          assert i < n && xs[..n][i] == Some(v) && forall j :: i < j < n ==> xs[..n][j].None?;
        }
      } else {
        if exists i :: 0 <= i < |xs| && xs[i] == Some(v) && forall j :: i < j < |xs| ==> xs[j].None? {
          var i :| 0 <= i < |xs| && xs[i] == Some(v) && forall j :: i < j < |xs| ==> xs[j].None?;
          assert i == n;
        }
      }
    }
  }

  /** `FirstSome` picks the present value before which nothing is present. */
  lemma {:induction false} FirstSomeIff<T>(xs: seq<Option<T>>, v: T)
    ensures FirstSome(xs) == Some(v) <==>
            exists i :: 0 <= i < |xs| && xs[i] == Some(v) && forall j :: 0 <= j < i ==> xs[j].None?
  {
    if xs != [] {
      FirstSomeIff(xs[1..], v);
      if xs[0].None? {
        if FirstSome(xs) == Some(v) {
          var i :| 0 <= i < |xs| - 1 && xs[1..][i] == Some(v) && forall j :: 0 <= j < i ==> xs[1..][j].None?;
          assert xs[i + 1] == Some(v) && forall j :: 0 <= j < i + 1 ==> xs[j].None?;
        }
        if exists i :: 0 <= i < |xs| && xs[i] == Some(v) && forall j :: 0 <= j < i ==> xs[j].None? {
          var i :| 0 <= i < |xs| && xs[i] == Some(v) && forall j :: 0 <= j < i ==> xs[j].None?;
          assert i > 0 && xs[1..][i - 1] == Some(v) && forall j :: 0 <= j < i - 1 ==> xs[1..][j].None?;
        }
      } else {
        if exists i :: 0 <= i < |xs| && xs[i] == Some(v) && forall j :: 0 <= j < i ==> xs[j].None? {
          var i :| 0 <= i < |xs| && xs[i] == Some(v) && forall j :: 0 <= j < i ==> xs[j].None?;
          assert i == 0;
        }
      }
    }
  }

  /** Neither picks anything exactly when nothing is present. */
  lemma {:induction false} LastSomeNone<T>(xs: seq<Option<T>>)
    ensures LastSome(xs).None? <==> forall i :: 0 <= i < |xs| ==> xs[i].None?
  {
    if xs != [] {
      LastSomeNone(xs[..|xs| - 1]);
      assert forall i :: 0 <= i < |xs| - 1 ==> xs[..|xs| - 1][i] == xs[i];
    }
  }

  /** The value `self.datetime` holds after the loops of `get_datetime`
      have made the attempts `xs`, starting from `prev`: the last successful
      parse, since nothing breaks out of the loops; `prev` when none
      succeeded. */
  function Latest(prev: Option<DateTime>, xs: seq<Option<DateTime>>): Option<DateTime>
  {
    if LastSome(xs).Some? then LastSome(xs) else prev
  }

  /** The timestamp `get_datetime` resolves for a fresh image. */
  function Resolve(tags: map<string, string>): (r: Option<DateTime>)
    ensures r.Some? ==> r.value.Valid()
  {
    var xs := Attempts(tags, Candidates(tags));
    LastSomeMember(xs);
    LastSome(xs)
  }

  lemma {:induction false} LastSomeMember<T>(xs: seq<Option<T>>)
    ensures LastSome(xs).Some? ==> exists i :: 0 <= i < |xs| && xs[i] == LastSome(xs)
  {
    if xs != [] && xs[|xs| - 1].None? {
      LastSomeMember(xs[..|xs| - 1]);
      if LastSome(xs).Some? {
        var i :| 0 <= i < |xs| - 1 && xs[..|xs| - 1][i] == LastSome(xs);
        assert xs[i] == LastSome(xs);
      }
    }
  }

  /** With the single format of `EXIF_DATETIME_STRF`, the attempts are the
      parses of the candidate values, one per candidate, in order. */
  lemma {:induction false} AttemptsAt(tags: map<string, string>, names: seq<string>)
    requires forall n :: n in names ==> n in tags
    ensures |Attempts(tags, names)| == |names|
    ensures forall i :: 0 <= i < |names| ==>
              Attempts(tags, names)[i] == Strptime(tags[names[i]], EXIF_DATETIME_STRF[0])
  {
    if names != [] {
      var n := |names| - 1;
      AttemptsAt(tags, names[..n]);
      var xs := Attempts(tags, names[..n]);
      var last := Tries(tags[names[n]], EXIF_DATETIME_STRF);
      assert Attempts(tags, names) == xs + last;
      forall i | 0 <= i < |names|
        ensures Attempts(tags, names)[i] == Strptime(tags[names[i]], EXIF_DATETIME_STRF[0])
      {
        if i < n {
          assert names[..n][i] == names[i];
          assert (xs + last)[i] == xs[i];
        } else {
          assert (xs + last)[i] == last[0];
        }
      }
    }
  }

  /** The resolved timestamp is the parse of the LAST candidate, in
      `EXIF_DATETIME_TAGS` order, whose value parses: every later candidate
      fails to parse. */
  lemma ResolveIsLastParse(tags: map<string, string>, d: DateTime)
    ensures Resolve(tags) == Some(d) <==>
            exists i :: 0 <= i < |Candidates(tags)|
                        && Strptime(tags[Candidates(tags)[i]], EXIF_DATETIME_STRF[0]) == Some(d)
                        && forall j :: i < j < |Candidates(tags)| ==>
                             Strptime(tags[Candidates(tags)[j]], EXIF_DATETIME_STRF[0]).None?
  {
    AttemptsAt(tags, Candidates(tags));
    LastSomeIff(Attempts(tags, Candidates(tags)), d);
  }

  /** No timestamp is resolved exactly when no candidate value parses. */
  lemma ResolveNone(tags: map<string, string>)
    ensures Resolve(tags).None? <==>
            forall i :: 0 <= i < |Candidates(tags)| ==>
              Strptime(tags[Candidates(tags)[i]], EXIF_DATETIME_STRF[0]).None?
  {
    AttemptsAt(tags, Candidates(tags));
    LastSomeNone(Attempts(tags, Candidates(tags)));
  }

  /** The comment above `EXIF_DATETIME_TAGS` says the first valid tag is
      kept; the loops keep the last. With a valid `DateTimeOriginal` and a
      different valid `DateTime`, the image is filed by `DateTime`, while
      the first valid attempt is `DateTimeOriginal`'s. */
  lemma LastParseWinsOverComment()
    ensures var tags := map["DateTimeOriginal" := "2020:05:01 10:00:00",
                            "DateTime" := "2021:01:02 03:04:05"];
            && Resolve(tags) == Some(DateTime(2021, 1, 2, 3, 4, 5))
            && FirstSome(Attempts(tags, Candidates(tags))) == Some(DateTime(2020, 5, 1, 10, 0, 0))
  {
    var tags := map["DateTimeOriginal" := "2020:05:01 10:00:00",
                    "DateTime" := "2021:01:02 03:04:05"];
    ExampleAttempts();
    var xs := Attempts(tags, Candidates(tags));
    assert LastSome(xs) == Some(DateTime(2021, 1, 2, 3, 4, 5));
    assert FirstSome(xs) == Some(DateTime(2020, 5, 1, 10, 0, 0));
  }

  lemma ExampleCandidates()
    ensures Candidates(map["DateTimeOriginal" := "2020:05:01 10:00:00",
                           "DateTime" := "2021:01:02 03:04:05"]) == ["DateTimeOriginal", "DateTime"]
  {
    var tags := map["DateTimeOriginal" := "2020:05:01 10:00:00",
                    "DateTime" := "2021:01:02 03:04:05"];
    assert "DateTimeDigitized" !in tags;
    assert EXIF_DATETIME_TAGS[1..] == ["DateTimeDigitized", "DateTime"];
    assert EXIF_DATETIME_TAGS[1..][1..] == ["DateTime"];
  }

  lemma ExampleAttempts()
    ensures var tags := map["DateTimeOriginal" := "2020:05:01 10:00:00",
                            "DateTime" := "2021:01:02 03:04:05"];
            Attempts(tags, Candidates(tags)) == [Some(DateTime(2020, 5, 1, 10, 0, 0)), Some(DateTime(2021, 1, 2, 3, 4, 5))]
  {
    var tags := map["DateTimeOriginal" := "2020:05:01 10:00:00",
                    "DateTime" := "2021:01:02 03:04:05"];
    ExampleCandidates();
    AttemptsOfTwo(tags, "DateTimeOriginal", "DateTime");
    assert tags["DateTimeOriginal"] == "2020:05:01 10:00:00";
    assert tags["DateTime"] == "2021:01:02 03:04:05";
    ExampleParses();
  }

  /** The attempts for two candidates are their two parses. */
  lemma AttemptsOfTwo(tags: map<string, string>, a: string, b: string)
    requires a in tags && b in tags
    ensures Attempts(tags, [a, b])
         == [Strptime(tags[a], EXIF_DATETIME_STRF[0]), Strptime(tags[b], EXIF_DATETIME_STRF[0])]
  {
    AttemptsAt(tags, [a, b]);
  }

  lemma ExampleParses()
    ensures Strptime("2020:05:01 10:00:00", EXIF_DATETIME_STRF[0]) == Some(DateTime(2020, 5, 1, 10, 0, 0))
    ensures Strptime("2021:01:02 03:04:05", EXIF_DATETIME_STRF[0]) == Some(DateTime(2021, 1, 2, 3, 4, 5))
  {
    ExampleText2020();
    ExampleText2021();
    StrptimeExifText(DateTime(2020, 5, 1, 10, 0, 0));
    StrptimeExifText(DateTime(2021, 1, 2, 3, 4, 5));
  }

  lemma ExampleYears()
    ensures Digits(2020, 4) == "2020" && Digits(2021, 4) == "2021"
  {
    assert Digits(2, 1) == "2";
    assert Digits(20, 2) == "20";
    assert Digits(202, 3) == "202";
  }

  lemma ExampleTwoDigits()
    ensures Digits(0, 2) == "00" && Digits(1, 2) == "01" && Digits(2, 2) == "02"
    ensures Digits(3, 2) == "03" && Digits(4, 2) == "04" && Digits(5, 2) == "05" && Digits(10, 2) == "10"
  {
  }

  lemma ExampleText2020()
    ensures ExifText(DateTime(2020, 5, 1, 10, 0, 0)) == "2020:05:01 10:00:00"
  {
    assert DateTime(2020, 5, 1, 10, 0, 0).Valid();
    ExampleYears();
    ExampleTwoDigits();
    assert "2020" + ":" + "05" + ":" + "01" + " " + "10" + ":" + "00" + ":" + "00" == "2020:05:01 10:00:00";
  }

  lemma ExampleText2021()
    ensures ExifText(DateTime(2021, 1, 2, 3, 4, 5)) == "2021:01:02 03:04:05"
  {
    assert DateTime(2021, 1, 2, 3, 4, 5).Valid();
    ExampleYears();
    ExampleTwoDigits();
    assert "2021" + ":" + "01" + ":" + "02" + " " + "03" + ":" + "04" + ":" + "05" == "2021:01:02 03:04:05";
  }

  // ---------------------------------------------------------------------
  // Calendar expander
  // ---------------------------------------------------------------------

  /** Stores `vals[i]` under `keys[i]`, in index order. */
  function Assign(tags: map<string, string>, keys: seq<string>, vals: seq<string>): map<string, string>
    requires |keys| == |vals|
  {
    if keys == [] then tags
    else Assign(tags, keys[..|keys| - 1], vals[..|vals| - 1])[keys[|keys| - 1] := vals[|vals| - 1]]
  }

  lemma {:induction false} AssignPrefix(tags: map<string, string>, keys: seq<string>, vals: seq<string>, k: nat)
    requires |keys| == |vals| && k < |keys|
    ensures Assign(tags, keys[..k + 1], vals[..k + 1]) == Assign(tags, keys[..k], vals[..k])[keys[k] := vals[k]]
  {
    assert keys[..k + 1][..k] == keys[..k];
    assert vals[..k + 1][..k] == vals[..k];
  }

  /** The eight fields stored under `DATETIME_TUPLE_KEYS`, written out. */
  function StoreFields(tags: map<string, string>, f: seq<string>): map<string, string>
    requires |f| == 8
  {
    tags["year" := f[0]]["month" := f[1]]["day" := f[2]]["hour" := f[3]]
        ["minute" := f[4]]["second" := f[5]]["weekday" := f[6]]["yearday" := f[7]]
  }

  /** Keys other than the calendar keys keep their entries. */
  lemma StoreFieldsKeeps(tags: map<string, string>, f: seq<string>, k: string)
    requires |f| == 8 && k !in DATETIME_TUPLE_KEYS
    ensures k in StoreFields(tags, f) <==> k in tags
    ensures k in tags ==> StoreFields(tags, f)[k] == tags[k]
  {
  }

  /** Storing the fields position by position under `DATETIME_TUPLE_KEYS`
      is `StoreFields`. */
  lemma AssignTupleKeys(tags: map<string, string>, f: seq<string>)
    requires |f| == 8
    ensures Assign(tags, DATETIME_TUPLE_KEYS, f) == StoreFields(tags, f)
  {
    var ks := DATETIME_TUPLE_KEYS;
    assert Assign(tags, ks[..0], f[..0]) == tags;
    AssignPrefix(tags, ks, f, 0); AssignPrefix(tags, ks, f, 1);
    AssignPrefix(tags, ks, f, 2); AssignPrefix(tags, ks, f, 3);
    AssignPrefix(tags, ks, f, 4); AssignPrefix(tags, ks, f, 5);
    AssignPrefix(tags, ks, f, 6); AssignPrefix(tags, ks, f, 7);
    assert ks[..8] == ks && f[..8] == f;
  }

  /** The tag dictionary after the calendar fields of `d` are stored:
      field `i` of `strftime(DATETIME_TUPLE_TAGS[0]).split()` (which is
      `TupleFields(d)[i]`, by `TupleFieldsSplit`) under
      `DATETIME_TUPLE_KEYS[i]`. */
  function Expanded(tags: map<string, string>, d: DateTime): map<string, string>
    requires d.Valid() && d.year >= 1900
  {
    StoreFields(tags, TupleFields(d))
  }

  /** `d.strftime(DATETIME_TUPLE_TAGS[0]).split()`, `None` when `strftime`
      raises: exactly the eight calendar fields of `d`, for every year
      `strftime` accepts. */
  function DateParts(d: DateTime): (r: Option<seq<string>>)
    requires d.Valid()
    ensures r.Some? <==> d.year >= 1900
    ensures r.Some? ==> r.value == TupleFields(d)
  {
    match StrftimeTuple(d)
    case None => None
    case Some(text) =>
      TupleFieldsSplit(d);
      Some(Split(text))
  }

  /** The calendar keys always hold the components of the resolved
      timestamp, overriding any tag of the same name; every other key is
      left as it was. */
  lemma ExpandedFields(tags: map<string, string>, d: DateTime)
    requires d.Valid() && d.year >= 1900
    ensures var e := Expanded(tags, d);
      && e.Keys == tags.Keys + {"year", "month", "day", "hour", "minute", "second", "weekday", "yearday"}
      && e["year"] == Digits(d.year, 4) && e["month"] == Digits(d.month, 2)
      && e["day"] == Digits(d.day, 2) && e["hour"] == Digits(d.hour, 2)
      && e["minute"] == Digits(d.minute, 2) && e["second"] == Digits(d.second, 2)
      && e["weekday"] == Digits(Weekday(d), 1) && e["yearday"] == Digits(DayOfYear(d), 3)
      && forall k :: k in tags && k !in DATETIME_TUPLE_KEYS ==> e[k] == tags[k]
  {
  }

  /** The stored calendar fields read back as exactly the components of
      the timestamp. */
  lemma ExpandedReads(tags: map<string, string>, d: DateTime)
    requires d.Valid() && d.year >= 1900
    ensures var e := Expanded(tags, d);
      && ParseDigits(e["year"]) == Some(d.year as nat) && ParseDigits(e["month"]) == Some(d.month as nat)
      && ParseDigits(e["day"]) == Some(d.day as nat) && ParseDigits(e["hour"]) == Some(d.hour as nat)
      && ParseDigits(e["minute"]) == Some(d.minute as nat) && ParseDigits(e["second"]) == Some(d.second as nat)
      && ParseDigits(e["weekday"]) == Some(Weekday(d) as nat) && ParseDigits(e["yearday"]) == Some(DayOfYear(d) as nat)
  {
    TupleFieldsRead(d);
  }

  /** Keys other than the calendar keys keep their entries. */
  lemma ExpandedKeeps(tags: map<string, string>, d: DateTime, k: string)
    requires d.Valid() && d.year >= 1900
    requires k in tags && k !in DATETIME_TUPLE_KEYS
    ensures k in Expanded(tags, d) && Expanded(tags, d)[k] == tags[k]
  {
  }

  // ---------------------------------------------------------------------
  // The image
  // ---------------------------------------------------------------------

  /** What a fully constructed image holds. */
  datatype ImageRecord = ImageRecord(filename: string, tags: map<string, string>, datetime: DateTime)

  /** `PixifImage(filename)` given the decoded map `exif`: `None` when the
      constructor raises, because the map is empty ("no EXIF data"), no
      candidate parses (`self.datetime` never assigned), or the timestamp
      is before 1900 (`strftime` refuses it). */
  ghost function ParseImage(filename: string, exif: map<string, string>): Option<ImageRecord>
  {
    if exif == map[] then None
    else
      var tags := Normalize(map["name" := Basename(filename)], exif);
      match Resolve(tags)
      case None => None
      case Some(d) =>
        if d.year < 1900 then None
        else Some(ImageRecord(filename, Expanded(tags, d), d))
  }

  class PixifImage {
    var filename: string
    var exif: map<string, string>
    var tags: map<string, string>
    /** `None` while the attribute `self.datetime` has not been assigned. */
    var datetime: Option<DateTime>

    /** The seeded base name is never replaced. */
    ghost predicate Valid()
      reads this
    {
      && "name" in tags && tags["name"] == Basename(filename)
      && (datetime.Some? ==> datetime.value.Valid())
    }

    ghost function Record(): ImageRecord
      reads this
      requires datetime.Some?
    {
      ImageRecord(filename, tags, datetime.value)
    }

    /** The part of `__init__` that does not raise: remembers the file name
        and the decoded map, and seeds the tags with the base name. */
    constructor (filename: string, exif: map<string, string>)
      ensures this.filename == filename && this.exif == exif
      ensures tags == map["name" := Basename(filename)] && datetime == None
      ensures Valid()
    {
      this.filename := filename;
      this.exif := exif;
      this.tags := map["name" := Basename(filename)];
      this.datetime := None;
    }

    /** `get_tags`: walks the identifiers in sorted order and stores, under
        the second word of each, its value unless that key is already
        present. */
    method GetTags()
      requires Valid()
      modifies this`tags
      ensures Valid()
      ensures tags == Normalize(old(tags), exif)
    {
      ghost var seed := tags;
      var ids := SortedIdentifiers(exif.Keys);
      var i := 0;
      while i < |ids|
        invariant 0 <= i <= |ids|
        invariant TagsSoFar(seed, exif, ids, i, tags)
      {
        ghost var prev := tags;
        var id := ids[i];
        if id !in THUMBNAIL_TAGS {
          var ws := Split(id);
          if |ws| >= 2 {
            var t := ws[1];
            if t !in tags {
              tags := tags[t := exif[id]];
            }
          }
        }
        TagsStep(seed, exif, ids, i, prev, tags);
        i := i + 1;
      }
      NormalizeFromLoop(seed, exif, ids, tags);
    }

    /** The nested loops of `get_datetime`: tries every candidate tag
        against every format and lets each successful parse overwrite
        `self.datetime` (nothing breaks out of the loops). */
    method TryCandidates()
      requires Valid()
      modifies this`datetime
      ensures Valid()
      ensures datetime == Latest(old(datetime), Attempts(tags, Candidates(tags)))
    {
      ghost var prev := datetime;
      var names := Candidates(tags);
      var i := 0;
      while i < |names|
        invariant 0 <= i <= |names|
        invariant datetime == Latest(prev, Attempts(tags, names[..i]))
      {
        ghost var done := Attempts(tags, names[..i]);
        TryFormats(tags[names[i]], prev, done);
        AttemptsSnoc(tags, names, i);
        i := i + 1;
      }
      assert names[..|names|] == names;
      LatestValid(prev, Attempts(tags, names));
    }

    /** The inner loop of `get_datetime`: one candidate text against every
        format, in order. */
    method TryFormats(dateStr: string, ghost prev: Option<DateTime>, ghost done: seq<Option<DateTime>>)
      requires datetime == Latest(prev, done)
      modifies this`datetime
      ensures datetime == Latest(prev, done + Tries(dateStr, EXIF_DATETIME_STRF))
    {
      var j := 0;
      assert done + Tries(dateStr, EXIF_DATETIME_STRF[..0]) == done;
      while j < |EXIF_DATETIME_STRF|
        invariant 0 <= j <= |EXIF_DATETIME_STRF|
        invariant datetime == Latest(prev, done + Tries(dateStr, EXIF_DATETIME_STRF[..j]))
      {
        var parsed := Strptime(dateStr, EXIF_DATETIME_STRF[j]);
        TriesSnoc(dateStr, EXIF_DATETIME_STRF, j);
        LatestSnoc(prev, done + Tries(dateStr, EXIF_DATETIME_STRF[..j]), parsed);
        AppendSnoc(done, Tries(dateStr, EXIF_DATETIME_STRF[..j]), parsed);
        if parsed.Some? {
          datetime := parsed;
        }
        j := j + 1;
      }
      assert EXIF_DATETIME_STRF[..j] == EXIF_DATETIME_STRF;
    }

    /** The last lines of `get_datetime`: stores the fields of
        `strftime(DATETIME_TUPLE_TAGS[0]).split()` under
        `DATETIME_TUPLE_KEYS`, position by position. */
    method StoreDateParts(parts: seq<string>)
      requires Valid() && |parts| == |DATETIME_TUPLE_KEYS|
      modifies this`tags
      ensures Valid()
      ensures tags == StoreFields(old(tags), parts)
    {
      ghost var start := tags;
      var k := 0;
      while k < |parts|
        invariant 0 <= k <= |parts|
        invariant tags == Assign(start, DATETIME_TUPLE_KEYS[..k], parts[..k])
      {
        AssignPrefix(start, DATETIME_TUPLE_KEYS, parts, k);
        tags := tags[DATETIME_TUPLE_KEYS[k] := parts[k]];
        k := k + 1;
      }
      assert DATETIME_TUPLE_KEYS[..k] == DATETIME_TUPLE_KEYS && parts[..k] == parts;
      AssignTupleKeys(start, parts);
      StoreFieldsKeeps(start, parts, "name");
    }

    /** `get_datetime`: resolves the timestamp and, if one was ever
        assigned and `strftime` accepts it, stores its calendar fields.
        `raised` reports the exception that otherwise ends the constructor:
        `AttributeError` when `self.datetime` was never assigned,
        `ValueError` when `strftime` refuses a year before 1900. */
    method GetDatetime() returns (raised: bool)
      requires Valid() && datetime.None?
      modifies this`tags, this`datetime
      ensures Valid()
      ensures datetime == Resolve(old(tags))
      ensures raised <==> datetime.None? || datetime.value.year < 1900
      ensures !raised ==> tags == Expanded(old(tags), datetime.value)
      ensures raised ==> tags == old(tags)
    {
      ghost var tags0 := tags;
      TryCandidates();
      assert tags == tags0;
      ResolveFresh(tags0);
      assert datetime == Resolve(tags0);
      if datetime.None? {
        return true;
      }
      var parts := DateParts(datetime.value);
      if parts.None? {
        return true;
      }
      StoreDateParts(parts.value);
      raised := false;
    }

    /** The two calls `__init__` makes once the EXIF data is there:
        `get_tags()`, then `get_datetime()`. */
    method Initialise() returns (raised: bool, ghost normalized: map<string, string>)
      requires Valid() && datetime.None?
      modifies this`tags, this`datetime
      ensures Valid()
      ensures normalized == Normalize(old(tags), exif)
      ensures datetime == Resolve(normalized)
      ensures raised <==> datetime.None? || datetime.value.year < 1900
      ensures !raised ==> tags == Expanded(normalized, datetime.value)
    {
      GetTags();
      normalized := tags;
      raised := GetDatetime();
    }

    /** `as_dict`: the tag dictionary, which always carries the base name. */
    function AsDict(): (r: map<string, string>)
      reads this
      requires Valid()
      ensures "name" in r && r["name"] == Basename(filename)
    {
      tags
    }
  }

  /** A resolved timestamp is always a valid one. */
  lemma LatestValid(prev: Option<DateTime>, xs: seq<Option<DateTime>>)
    requires prev.Some? ==> prev.value.Valid()
    requires forall i :: 0 <= i < |xs| && xs[i].Some? ==> xs[i].value.Valid()
    ensures Latest(prev, xs).Some? ==> Latest(prev, xs).value.Valid()
  {
    LastSomeMember(xs);
  }

  lemma TriesSnoc(s: string, fmts: seq<string>, j: nat)
    requires forall f :: f in fmts ==> f in EXIF_DATETIME_STRF
    requires j < |fmts|
    ensures Tries(s, fmts[..j + 1]) == Tries(s, fmts[..j]) + [Strptime(s, fmts[j])]
  {
    assert fmts[..j + 1][..j] == fmts[..j];
  }

  lemma AttemptsSnoc(tags: map<string, string>, names: seq<string>, i: nat)
    requires forall n :: n in names ==> n in tags
    requires i < |names|
    ensures Attempts(tags, names[..i + 1])
         == Attempts(tags, names[..i]) + Tries(tags[names[i]], EXIF_DATETIME_STRF[..|EXIF_DATETIME_STRF|])
  {
    assert names[..i + 1][..i] == names[..i];
    assert EXIF_DATETIME_STRF[..|EXIF_DATETIME_STRF|] == EXIF_DATETIME_STRF;
  }

  lemma AppendSnoc<T>(xs: seq<T>, ys: seq<T>, y: T)
    ensures xs + (ys + [y]) == (xs + ys) + [y]
  {
  }

  lemma LatestSnoc(prev: Option<DateTime>, xs: seq<Option<DateTime>>, x: Option<DateTime>)
    ensures Latest(prev, xs + [x]) == if x.Some? then x else Latest(prev, xs)
  {
    assert (xs + [x])[..|xs|] == xs;
  }

  /** In sorted order, the first identifier met with key `t`, while `t` is
      still absent, is the least identifier contributing `t`. */
  lemma FirstOfSorted(exif: map<string, string>, ids: seq<string>, i: nat, t: string)
    requires forall x :: x in exif.Keys <==> x in ids
    requires forall p, q :: 0 <= p < q < |ids| ==> Less(ids[p], ids[q])
    requires i < |ids| && TagKey(ids[i]) == Some(t)
    requires forall j :: 0 <= j < i ==> TagKey(ids[j]) != Some(t)
    ensures t in NewKeys(exif) && FirstId(exif, t) == ids[i]
  {
    forall x | x in exif && TagKey(x) == Some(t)
      ensures !Less(x, ids[i])
    {
      var q :| 0 <= q < |ids| && ids[q] == x;
      if q == i {
        LessIrreflexive(x);
      } else {
        LessAsymmetric(ids[i], x);
      }
    }
    FirstIdIsFirst(exif, t);
    FirstIdUnique(exif, t, ids[i], FirstId(exif, t));
  }

  /** What the loop of `get_tags` knows after the first `i` identifiers:
      the seed is untouched, every key those identifiers contribute is
      present, and every key added holds the value of the least identifier
      contributing it. */
  ghost predicate TagsSoFar(seed: map<string, string>, exif: map<string, string>, ids: seq<string>, i: nat, tags: map<string, string>)
  {
    && i <= |ids|
    && (forall k :: k in seed ==> k in tags && tags[k] == seed[k])
    && (forall j :: 0 <= j < i && TagKey(ids[j]).Some? ==> TagKey(ids[j]).value in tags)
    && (forall k :: k in tags && k !in seed ==> k in NewKeys(exif) && tags[k] == exif[FirstId(exif, k)])
  }

  /** One turn of the loop of `get_tags` keeps `TagsSoFar`. */
  lemma TagsStep(seed: map<string, string>, exif: map<string, string>, ids: seq<string>, i: nat, prev: map<string, string>, tags: map<string, string>)
    requires forall x :: x in exif.Keys <==> x in ids
    requires forall p, q :: 0 <= p < q < |ids| ==> Less(ids[p], ids[q])
    requires i < |ids| && TagsSoFar(seed, exif, ids, i, prev)
    requires TagKey(ids[i]).None? ==> tags == prev
    requires TagKey(ids[i]).Some? && TagKey(ids[i]).value in prev ==> tags == prev
    requires TagKey(ids[i]).Some? && TagKey(ids[i]).value !in prev ==>
               tags == prev[TagKey(ids[i]).value := exif[ids[i]]]
    ensures TagsSoFar(seed, exif, ids, i + 1, tags)
  {
    var key := TagKey(ids[i]);
    if key.Some? && key.value !in prev {
      TagsAdd(seed, exif, ids, i, prev, key.value);
    } else {
      TagsKeep(seed, exif, ids, i, prev);
    }
  }

  /** An identifier that contributes no new key leaves the dictionary as it is. */
  lemma TagsKeep(seed: map<string, string>, exif: map<string, string>, ids: seq<string>, i: nat, prev: map<string, string>)
    requires i < |ids| && TagsSoFar(seed, exif, ids, i, prev)
    requires TagKey(ids[i]).Some? ==> TagKey(ids[i]).value in prev
    ensures TagsSoFar(seed, exif, ids, i + 1, prev)
  {
  }

  /** The first identifier contributing a key stores its value under it. */
  lemma TagsAdd(seed: map<string, string>, exif: map<string, string>, ids: seq<string>, i: nat, prev: map<string, string>, t: string)
    requires forall x :: x in exif.Keys <==> x in ids
    requires forall p, q :: 0 <= p < q < |ids| ==> Less(ids[p], ids[q])
    requires i < |ids| && TagsSoFar(seed, exif, ids, i, prev)
    requires TagKey(ids[i]) == Some(t) && t !in prev
    ensures TagsSoFar(seed, exif, ids, i + 1, prev[t := exif[ids[i]]])
  {
    forall j | 0 <= j < i
      ensures TagKey(ids[j]) != Some(t)
    {
    }
    FirstOfSorted(exif, ids, i, t);
    TagsInsert(seed, exif, ids, i, prev, t);
  }

  /** Storing the value of the least identifier contributing a new key. */
  lemma TagsInsert(seed: map<string, string>, exif: map<string, string>, ids: seq<string>, i: nat, prev: map<string, string>, t: string)
    requires i < |ids| && TagsSoFar(seed, exif, ids, i, prev)
    requires TagKey(ids[i]) == Some(t) && t !in prev
    requires t in NewKeys(exif) && FirstId(exif, t) == ids[i]
    ensures TagsSoFar(seed, exif, ids, i + 1, prev[t := exif[ids[i]]])
  {
  }

  /** The dictionary the loop of `get_tags` ends with is `Normalize`'s. */
  lemma NormalizeFromLoop(seed: map<string, string>, exif: map<string, string>, ids: seq<string>, tags: map<string, string>)
    requires forall x :: x in exif.Keys <==> x in ids
    requires TagsSoFar(seed, exif, ids, |ids|, tags)
    ensures tags == Normalize(seed, exif)
  {
    forall k | k in NewKeys(exif)
      ensures k in tags
    {
      var id :| id in exif && TagKey(id).Some? && TagKey(id).value == k;
      var j :| 0 <= j < |ids| && ids[j] == id;
    }
  }

  /** A fresh image starts without a timestamp, so what the loops leave
      behind is the last successful parse. */
  lemma ResolveFresh(tags: map<string, string>)
    ensures Latest(None, Attempts(tags, Candidates(tags))) == Resolve(tags)
  {
  }

  /** What `__init__` ends with, given what `get_tags` and `get_datetime`
      leave behind, is what `ParseImage` describes. */
  lemma ConstructionOutcome(filename: string, exif: map<string, string>, tags: map<string, string>,
                            datetime: Option<DateTime>, raised: bool, final: map<string, string>)
    requires exif != map[]
    requires tags == Normalize(map["name" := Basename(filename)], exif)
    requires datetime == Resolve(tags)
    requires raised <==> datetime.None? || datetime.value.year < 1900
    requires !raised ==> final == Expanded(tags, datetime.value)
    ensures raised <==> ParseImage(filename, exif).None?
    ensures !raised ==> ParseImage(filename, exif) == Some(ImageRecord(filename, final, datetime.value))
  {
  }

  /** `PixifImage(filename)`: `null` when construction raises. */
  method NewPixifImage(filename: string, exif: map<string, string>) returns (img: PixifImage?)
    ensures img == null <==> ParseImage(filename, exif).None?
    ensures img != null ==> fresh(img) && img.Valid() && img.datetime.Some?
                            && img.Record() == ParseImage(filename, exif).value
  {
    if exif == map[] {
      return null;
    }
    var image := new PixifImage(filename, exif);
    var raised, normalized := image.Initialise();
    ConstructionOutcome(filename, exif, normalized, image.datetime, raised, image.tags);
    if raised {
      return null;
    }
    img := image;
  }

  // ---------------------------------------------------------------------
  // Collection filter (files_to_pixif)
  // ---------------------------------------------------------------------

  /** The results of a fallible `parse`, in input order, skipping the inputs
      it rejects. */
  function KeepParsed<A, B>(xs: seq<A>, parse: A -> Option<B>): seq<B>
  {
    if xs == [] then []
    else KeepParsed(xs[..|xs| - 1], parse) +
         (match parse(xs[|xs| - 1]) case Some(b) => [b] case None => [])
  }

  /** Filtering a concatenation filters each part and keeps them in order. */
  lemma {:induction false} KeepParsedAppend<A, B>(xs: seq<A>, ys: seq<A>, parse: A -> Option<B>)
    ensures KeepParsed(xs + ys, parse) == KeepParsed(xs, parse) + KeepParsed(ys, parse)
  {
    if ys != [] {
      var zs := xs + ys;
      assert zs[..|zs| - 1] == xs + ys[..|ys| - 1];
      KeepParsedAppend(xs, ys[..|ys| - 1], parse);
    } else {
      assert xs + ys == xs;
    }
  }

  /** A value is kept exactly when some input parses to it. */
  lemma {:induction false} KeepParsedMember<A, B>(xs: seq<A>, parse: A -> Option<B>, b: B)
    ensures b in KeepParsed(xs, parse) <==> exists i :: 0 <= i < |xs| && parse(xs[i]) == Some(b)
  {
    if xs != [] {
      var n := |xs| - 1;
      KeepParsedMember(xs[..n], parse, b);
      if exists i :: 0 <= i < |xs| && parse(xs[i]) == Some(b) {
        var i :| 0 <= i < |xs| && parse(xs[i]) == Some(b);
        if i < n {
          assert xs[..n][i] == xs[i];
        }
      }
      if b in KeepParsed(xs[..n], parse) {
        var i :| 0 <= i < n && parse(xs[..n][i]) == Some(b);
        assert xs[i] == xs[..n][i];
      }
    }
  }

  /** Exactly the inputs that parse contribute one value each. */
  lemma {:induction false} KeepParsedCount<A, B>(xs: seq<A>, parse: A -> Option<B>)
    ensures |KeepParsed(xs, parse)| <= |xs|
    ensures (forall i :: 0 <= i < |xs| ==> parse(xs[i]).None?) ==> KeepParsed(xs, parse) == []
    ensures (forall i :: 0 <= i < |xs| ==> parse(xs[i]).Some?) ==> |KeepParsed(xs, parse)| == |xs|
  {
    if xs != [] {
      KeepParsedCount(xs[..|xs| - 1], parse);
    }
  }

  /** The images `files_to_pixif` keeps, as records. */
  ghost function Collect(files: seq<string>, exifOf: string -> map<string, string>): seq<ImageRecord>
  {
    KeepParsed(files, f => ParseImage(f, exifOf(f)))
  }

  lemma CollectSnoc(files: seq<string>, exifOf: string -> map<string, string>, i: nat)
    requires i < |files|
    ensures Collect(files[..i + 1], exifOf)
         == Collect(files[..i], exifOf) +
            (match ParseImage(files[i], exifOf(files[i])) case Some(r) => [r] case None => [])
  {
    assert files[..i + 1][..i] == files[..i];
  }

  /** One turn of the loop of `files_to_pixif`: constructs the image of
      `files[i]` and extends the kept records accordingly. */
  method NextImage(files: seq<string>, exifOf: string -> map<string, string>, i: nat,
                   ghost records: seq<ImageRecord>)
    returns (img: PixifImage?, ghost records': seq<ImageRecord>)
    requires i < |files| && records == Collect(files[..i], exifOf)
    ensures records' == Collect(files[..i + 1], exifOf)
    ensures img == null ==> records' == records
    ensures img != null ==> fresh(img) && img.datetime.Some? && records' == records + [img.Record()]
  {
    img := NewPixifImage(files[i], exifOf(files[i]));
    CollectSnoc(files, exifOf, i);
    if img == null {
      records' := records;
    } else {
      records' := records + [img.Record()];
    }
  }

  /** `files_to_pixif`: constructs an image per file and keeps, in order,
      the ones whose construction did not raise. */
  method FilesToPixif(files: seq<string>, exifOf: string -> map<string, string>) returns (images: seq<PixifImage>)
    ensures |images| == |Collect(files, exifOf)|
    ensures forall k :: 0 <= k < |images| ==>
              fresh(images[k]) && images[k].datetime.Some?
              && images[k].Record() == Collect(files, exifOf)[k]
  {
    images := [];
    ghost var records: seq<ImageRecord> := [];
    var i := 0;
    while i < |files|
      invariant 0 <= i <= |files|
      invariant records == Collect(files[..i], exifOf)
      invariant |images| == |records|
      invariant forall k :: 0 <= k < |images| ==>
                  fresh(images[k]) && images[k].datetime.Some?
                  && images[k].Record() == records[k]
    {
      images, records := AddImage(files, exifOf, i, images, records);
      i := i + 1;
    }
    assert files[..|files|] == files;
  }

  method AddImage(files: seq<string>, exifOf: string -> map<string, string>, i: nat,
                  images: seq<PixifImage>, ghost records: seq<ImageRecord>)
    returns (images': seq<PixifImage>, ghost records': seq<ImageRecord>)
    requires i < |files| && records == Collect(files[..i], exifOf)
    requires |images| == |records|
    requires forall k :: 0 <= k < |images| ==> images[k].datetime.Some? && images[k].Record() == records[k]
    ensures records' == Collect(files[..i + 1], exifOf)
    ensures |images'| == |records'|
    ensures forall k :: 0 <= k < |images'| ==>
              (k < |images| ==> images'[k] == images[k])
              && (k >= |images| ==> fresh(images'[k]))
              && images'[k].datetime.Some? && images'[k].Record() == records'[k]
  {
    var img;
    img, records' := NextImage(files, exifOf, i, records);
    if img == null {
      images' := images;
    } else {
      images' := images + [img];
      forall k | 0 <= k < |images'|
        ensures (k < |images| ==> images'[k] == images[k])
             && (k >= |images| ==> fresh(images'[k]))
             && images'[k].datetime.Some? && images'[k].Record() == records'[k]
      {
        if k < |images| {
          assert images'[k] == images[k] && records'[k] == records[k];
        } else {
          assert images'[k] == img && records'[k] == img.Record();
        }
      }
    }
  }

  // ---------------------------------------------------------------------
  // Destination (the template and join of the driver)
  // ---------------------------------------------------------------------

  /** `os.path.join(dst, saveas.format(**tags))`. */
  function Destination(dst: string, saveas: string, tags: map<string, string>): Result<string, FormatError>
  {
    match Format(saveas, tags)
    case Ok(path) => Ok(Join(dst, path))
    case Err(e) => Err(e)
  }

  /** The text of a template `{y}/{y}-{m}-{d}/{n}`. */
  function DatedPathTemplate(y: string, m: string, d: string, n: string): string
  {
    PieceText(Field(y)) + (PieceText(Lit('/')) + (PieceText(Field(y)) + (PieceText(Lit('-'))
      + (PieceText(Field(m)) + (PieceText(Lit('-')) + (PieceText(Field(d)) + (PieceText(Lit('/'))
      + PieceText(Field(n)))))))))
  }

  /** Binding a template `{y}/{y}-{m}-{d}/{n}` substitutes all four fields
      or fails. */
  lemma DatedPathFormat(y: string, m: string, d: string, n: string, tags: map<string, string>)
    requires WellFormed(Field(y)) && WellFormed(Field(m)) && WellFormed(Field(d)) && WellFormed(Field(n))
    ensures Format(DatedPathTemplate(y, m, d, n), tags).Ok? <==> y in tags && m in tags && d in tags && n in tags
    ensures y in tags && m in tags && d in tags && n in tags ==>
              Format(DatedPathTemplate(y, m, d, n), tags) ==
              Ok(tags[y] + ("/" + (tags[y] + ("-" + (tags[m] + ("-" + (tags[d] + ("/" + tags[n]))))))))
  {
    var r8 := PieceText(Field(n));
    var r7 := PieceText(Lit('/')) + r8;
    var r6 := PieceText(Field(d)) + r7;
    var r5 := PieceText(Lit('-')) + r6;
    var r4 := PieceText(Field(m)) + r5;
    var r3 := PieceText(Lit('-')) + r4;
    var r2 := PieceText(Field(y)) + r3;
    var r1 := PieceText(Lit('/')) + r2;
    FormatFieldLast(n, tags);
    FormatLitText('/', r8, tags);
    FormatFieldText(d, r7, tags);
    FormatLitText('-', r6, tags);
    FormatFieldText(m, r5, tags);
    FormatLitText('-', r4, tags);
    FormatFieldText(y, r3, tags);
    FormatLitText('/', r2, tags);
    FormatFieldText(y, r1, tags);
  }

  /** A path bound from the dated template ends in the base name of its
      last field. */
  lemma DatedPathBasename(y: string, m: string, d: string, n: string)
    ensures Basename(y + ("/" + (y + ("-" + (m + ("-" + (d + ("/" + n)))))))) == Basename(n)
  {
    var x := y + ("/" + (y + ("-" + (m + ("-" + d)))));
    assert y + ("/" + (y + ("-" + (m + ("-" + (d + ("/" + n))))))) == x + ("/" + n);
    BasenameLastComponent(x, n);
  }

  /** `TEST_CONFIG['saveas']` is the dated-path template over the year,
      month, day and name attributes. */
  lemma SaveasTemplate()
    ensures TEST_SAVEAS == DatedPathTemplate("year", "month", "day", "name")
  {
    SaveasPieceTexts();
    assert TEST_SAVEAS == "{year}" + ("/" + ("{year}" + ("-" + ("{month}" + ("-" + ("{day}" + ("/" + "{name}")))))));
  }

  lemma SaveasPieceTexts()
    ensures PieceText(Field("year")) == "{year}" && PieceText(Field("month")) == "{month}"
    ensures PieceText(Field("day")) == "{day}" && PieceText(Field("name")) == "{name}"
    ensures PieceText(Lit('/')) == "/" && PieceText(Lit('-')) == "-"
  {
  }

  /** The configured template binds when the image has a year, month, day
      and name, to `<year>/<year>-<month>-<day>/<name>` under `dst`, and
      raises `KeyError` otherwise: never a partial path. */
  lemma TestDestination(dst: string, tags: map<string, string>)
    ensures Destination(dst, TEST_SAVEAS, tags).Ok? <==>
              "year" in tags && "month" in tags && "day" in tags && "name" in tags
    ensures "year" in tags && "month" in tags && "day" in tags && "name" in tags ==>
              Destination(dst, TEST_SAVEAS, tags) ==
              Ok(Join(dst, tags["year"] + ("/" + (tags["year"] + ("-" + (tags["month"] + ("-"
                + (tags["day"] + ("/" + tags["name"])))))))))
  {
    SaveasTemplate();
    DatedPathFormat("year", "month", "day", "name", tags);
  }

  /** What a parsed image holds: its base name under "name", the
      calendar fields of its timestamp, and otherwise exactly the keys its
      identifiers contribute. */
  lemma ParseImageTags(filename: string, exif: map<string, string>)
    requires ParseImage(filename, exif).Some?
    ensures var r := ParseImage(filename, exif).value;
      && r.filename == filename && r.datetime.Valid() && r.datetime.year >= 1900
      && "name" in r.tags && r.tags["name"] == Basename(filename)
      && r.tags["year"] == Digits(r.datetime.year, 4)
      && r.tags["month"] == Digits(r.datetime.month, 2)
      && r.tags["day"] == Digits(r.datetime.day, 2)
      && forall k :: k in r.tags <==>
           k == "name" || k in DATETIME_TUPLE_KEYS || exists id :: id in exif && TagKey(id) == Some(k)
  {
    var tags := Normalize(map["name" := Basename(filename)], exif);
    SeededKeys(filename, exif);
    ExpandedKeySet(tags, Resolve(tags).value);
  }

  /** The normalised tags of a file: its base name and the contributed keys. */
  lemma SeededKeys(filename: string, exif: map<string, string>)
    ensures var tags := Normalize(map["name" := Basename(filename)], exif);
      && "name" in tags && tags["name"] == Basename(filename)
      && forall k :: k in tags <==> k == "name" || exists id :: id in exif && TagKey(id) == Some(k)
  {
    NormalizeExtends(map["name" := Basename(filename)], exif);
  }

  /** Expanding adds exactly the calendar keys and keeps the name. */
  lemma ExpandedKeySet(tags: map<string, string>, d: DateTime)
    requires d.Valid() && d.year >= 1900
    requires "name" in tags
    ensures var e := Expanded(tags, d);
      && "name" in e && e["name"] == tags["name"]
      && e["year"] == Digits(d.year, 4) && e["month"] == Digits(d.month, 2) && e["day"] == Digits(d.day, 2)
      && forall k :: k in e <==> k in tags || k in DATETIME_TUPLE_KEYS
  {
    StoreFieldsKeeps(tags, TupleFields(d), "name");
  }

  /** Every parsed image has a destination under the configured template,
      `<dst>/<year>/<year>-<month>-<day>/<name>`, and the moved file keeps
      the base name of its source. */
  lemma RecordDestination(filename: string, exif: map<string, string>, dst: string)
    requires ParseImage(filename, exif).Some?
    ensures var r := ParseImage(filename, exif).value;
      var d := r.datetime;
      var path := Digits(d.year, 4) + ("/" + (Digits(d.year, 4) + ("-" + (Digits(d.month, 2) + ("-"
                    + (Digits(d.day, 2) + ("/" + Basename(filename))))))));
      && Destination(dst, TEST_SAVEAS, r.tags) == Ok(Join(dst, path))
      && Basename(Join(dst, path)) == Basename(filename)
  {
    ParseImageTags(filename, exif);
    var r := ParseImage(filename, exif).value;
    var d := r.datetime;
    TestDestination(dst, r.tags);
    var path := Digits(d.year, 4) + ("/" + (Digits(d.year, 4) + ("-" + (Digits(d.month, 2) + ("-"
                  + (Digits(d.day, 2) + ("/" + Basename(filename))))))));
    BasenameJoin(dst, path);
    DatedPathBasename(Digits(d.year, 4), Digits(d.month, 2), Digits(d.day, 2), Basename(filename));
    BasenameOfName(Basename(filename));
  }

  /** The target line 140 prints for a parsed image: the dated path under
      `TEST_CONFIG['dst']`, joined with exactly one separator. */
  lemma MainDestination(filename: string, exif: map<string, string>)
    requires ParseImage(filename, exif).Some?
    ensures var r := ParseImage(filename, exif).value;
      var d := r.datetime;
      var path := Digits(d.year, 4) + ("/" + (Digits(d.year, 4) + ("-" + (Digits(d.month, 2) + ("-"
                    + (Digits(d.day, 2) + ("/" + Basename(filename))))))));
      Destination(TEST_DST, TEST_SAVEAS, r.tags) == Ok(TEST_DST + ("/" + path))
  {
    RecordDestination(filename, exif, TEST_DST);
    var d := ParseImage(filename, exif).value.datetime;
    var y := Digits(d.year, 4);
    var path := y + ("/" + (Digits(d.year, 4) + ("-" + (Digits(d.month, 2) + ("-"
                  + (Digits(d.day, 2) + ("/" + Basename(filename))))))));
    assert path[0] == y[0] && IsDigit(y[0]);
    JoinRelative(TEST_DST, path);
  }
}
