/** The homepage's genre list: the categories of the user's favorites are
    normalised, tallied against eight default genres, sorted by (count,
    user-added) descending with ties kept in order, and cut to fifteen. */
module Genres {
  import opened Common
  import opened Text
  import opened Store

  /** One entry of the genre list; `link` always repeats `name`. */
  datatype Genre = Genre(name: string, link: string, count: nat)

  const DefaultGenreNames: seq<string> :=
    ["Romance", "Mystery", "Fantasy", "Action", "Science Fiction", "Horror", "Adventure", "Western"]

  /** At most fifteen genres are shown. */
  const MaxGenres: nat := 15

  /** Shortest category text that is counted. */
  const MinCategoryLength: nat := 4

  /** The key a genre is merged under: its name in lower case. */
  function GenreKey(g: Genre): string {
    Lower(g.name)
  }

  function DefaultKey(d: nat): string
    requires d < |DefaultGenreNames|
  {
    Lower(DefaultGenreNames[d])
  }

  /** A genre added from the user's categories rather than from the
      defaults. */
  predicate IsUserAdded(g: Genre) {
    g.name !in DefaultGenreNames
  }

  // ---------------------------------------------------------------
  // Default keys are distinct

  /** Which default a lower-case key belongs to, read off its first two
      letters (-1 for none). */
  function DefaultPosition(key: string): int {
    if |key| < 2 then -1
    else if key[0] == 'r' then 0 else if key[0] == 'm' then 1 else if key[0] == 'f' then 2
    else if key[0] == 'a' then (if key[1] == 'c' then 3 else 6)
    else if key[0] == 's' then 4 else if key[0] == 'h' then 5 else if key[0] == 'w' then 7
    else -1
  }

  lemma DefaultPositionOf(d: nat)
    requires d < |DefaultGenreNames|
    ensures DefaultPosition(DefaultKey(d)) == d && IsDefaultKey(DefaultKey(d))
  {
    var n := DefaultGenreNames[d];
    var k := Lower(n);
    if d == 0 { assert n == "Romance"; assert k[0] == 'r'; }
    else if d == 1 { assert n == "Mystery"; assert k[0] == 'm'; }
    else if d == 2 { assert n == "Fantasy"; assert k[0] == 'f'; }
    else if d == 3 { assert n == "Action"; assert k[0] == 'a' && k[1] == 'c'; }
    else if d == 4 { assert n == "Science Fiction"; assert k[0] == 's'; }
    else if d == 5 { assert n == "Horror"; assert k[0] == 'h'; }
    else if d == 6 { assert n == "Adventure"; assert k[0] == 'a' && k[1] == 'd'; }
    else { assert n == "Western"; assert k[0] == 'w'; }
  }

  /** No two defaults share a lower-case key, so each default has its own
      slot in the genre map. */
  lemma DefaultKeysDistinct()
    ensures forall d, e :: 0 <= d < e < |DefaultGenreNames| ==> DefaultKey(d) != DefaultKey(e)
  {
    forall d, e | 0 <= d < e < |DefaultGenreNames| ensures DefaultKey(d) != DefaultKey(e) {
      DefaultPositionOf(d);
      DefaultPositionOf(e);
    }
  }

  /** `key` is the key of one of the defaults (the one its first two
      letters point at). */
  predicate IsDefaultKey(key: string) {
    var d := DefaultPosition(key);
    0 <= d < |DefaultGenreNames| && DefaultKey(d) == key
  }

  // ---------------------------------------------------------------
  // Category normalisation

  /** The comma-separated pieces of a favorite's `categories`; a missing
      or empty value has none. */
  function CategoryPieces(fav: Favorite): (pieces: seq<string>)
    ensures fav.categories.None? || fav.categories == Some("") ==> pieces == []
  {
    match fav.categories
    case None => []
    case Some(c) => if c == "" then [] else Split(c, ',')
  }

  /** A piece stripped, cut at its first "/" and stripped again. */
  function NormalizeCategory(raw: string): (c: string)
    ensures IsStripped(c) && '/' !in c
    ensures '/' !in raw ==> c == Strip(raw)
    ensures '/' in raw ==> c == Strip(raw[..Find(raw, '/')])
  {
    var c := Strip(raw);
    StripKeeps(raw, '/');
    StripOfStripped(c);
    if '/' in c then
      StripThenCut(raw, '/');
      Strip(c[..Find(c, '/')])
    else Strip(c)
  }

  /** The genre name a piece contributes: its normal form title-cased, or
      nothing when that is shorter than four characters. */
  function AcceptCategory(raw: string): (accepted: Option<string>)
    ensures accepted.None? <==> |NormalizeCategory(raw)| < MinCategoryLength
    ensures accepted.Some? ==> |accepted.value| >= MinCategoryLength
    ensures accepted.Some? ==> Lower(accepted.value) == Lower(NormalizeCategory(raw))
    ensures accepted.Some? ==> IsGenreName(accepted.value)
  {
    var c := NormalizeCategory(raw);
    if |c| < MinCategoryLength then None else TitleLower(c); GenreNameOfNormal(c); Some(Title(c))
  }

  /** Normalising starts with `strip`, so surrounding whitespace never
      matters. */
  lemma NormalizeIgnoresSpace(raw: string)
    ensures NormalizeCategory(Strip(raw)) == NormalizeCategory(raw)
  {
    StripOfStripped(Strip(raw));
  }

  /** Pieces that agree once stripped contribute the same names. */
  lemma {:induction false} AcceptedOfStrips(a: seq<string>, b: seq<string>)
    requires |a| == |b| && forall i :: 0 <= i < |a| ==> Strip(a[i]) == Strip(b[i])
    ensures AcceptedOf(a) == AcceptedOf(b)
  {
    if a != [] {
      var n := |a| - 1;
      AcceptedOfStrips(a[..n], b[..n]);
      NormalizeIgnoresSpace(a[n]);
      NormalizeIgnoresSpace(b[n]);
      assert AcceptCategory(a[n]) == AcceptCategory(b[n]);
    }
  }

  /** The accepted name of one piece as a list of zero or one names. */
  function AcceptedOne(raw: string): seq<string> {
    match AcceptCategory(raw)
    case None => []
    case Some(name) => [name]
  }

  /** The accepted names of a list of pieces, in order. */
  function AcceptedOf(raws: seq<string>): seq<string> {
    if raws == [] then [] else AcceptedOf(raws[..|raws| - 1]) + AcceptedOne(raws[|raws| - 1])
  }

  /** The accepted names contributed by all favorites, in order. */
  function AcceptedPieces(favs: seq<Favorite>): seq<string> {
    if favs == [] then []
    else AcceptedPieces(favs[..|favs| - 1]) + AcceptedOf(CategoryPieces(favs[|favs| - 1]))
  }

  /** A title-cased name stays the same when title-cased again. */
  lemma TitleIdempotent(s: string)
    ensures Title(Title(s)) == Title(s)
  {
    var t := Title(s);
    forall i | 0 <= i < |s| ensures Title(t)[i] == t[i] {
      if IsLetter(s[i]) {
        assert StartsWord(t, i) == StartsWord(s, i) by {
          if i > 0 { assert IsLetter(t[i - 1]) == IsLetter(s[i - 1]); }
        }
      }
    }
  }

  /** What every accepted name looks like. */
  predicate IsGenreName(p: string) {
    |p| >= MinCategoryLength && '/' !in p && IsStripped(p) && Title(p) == p
  }

  /** Title-casing keeps a name free of "/". */
  lemma TitleKeepsSlashFree(c: string)
    requires '/' !in c
    ensures '/' !in Title(c)
  {
    var t := Title(c);
    forall i | 0 <= i < |t| ensures t[i] != '/' {
      if IsLetter(c[i]) {
        assert IsLetter(t[i]);
      } else {
        assert t[i] == c[i] && c[i] in c;
      }
    }
  }

  /** A normal form long enough to be accepted becomes a genre name. */
  lemma GenreNameOfNormal(c: string)
    requires |c| >= MinCategoryLength && '/' !in c && IsStripped(c)
    ensures IsGenreName(Title(c))
  {
    TitleIdempotent(c);
    TitleKeepsSlashFree(c);
    TitleKeepsStripped(c);
  }

  lemma AcceptedOneShape(raw: string)
    ensures forall p :: p in AcceptedOne(raw) ==> IsGenreName(p)
  {
    var a := AcceptCategory(raw);
    assert AcceptedOne(raw) == if a.Some? then [a.value] else [];
  }

  /** Every accepted name is at least four characters long, holds no
      "/", has no surrounding whitespace and is title-cased. */
  lemma {:induction false} AcceptedOfShape(raws: seq<string>)
    ensures forall p :: p in AcceptedOf(raws) ==> IsGenreName(p)
  {
    if raws != [] {
      AcceptedOfShape(raws[..|raws| - 1]);
      AcceptedOneShape(raws[|raws| - 1]);
    }
  }

  lemma {:induction false} AcceptedPiecesShape(favs: seq<Favorite>)
    ensures forall p :: p in AcceptedPieces(favs) ==> IsGenreName(p)
  {
    if favs != [] {
      AcceptedPiecesShape(favs[..|favs| - 1]);
      AcceptedOfShape(CategoryPieces(favs[|favs| - 1]));
    }
  }

  // ---------------------------------------------------------------
  // The reference tally

  /** How many names in `ps` have lower-case form `key`. */
  function KeyCount(ps: seq<string>, key: string): nat {
    if ps == [] then 0
    else KeyCount(ps[..|ps| - 1], key) + (if Lower(ps[|ps| - 1]) == key then 1 else 0)
  }

  lemma KeyCountSnoc(ps: seq<string>, c: string, key: string)
    ensures KeyCount(ps + [c], key) == KeyCount(ps, key) + (if Lower(c) == key then 1 else 0)
  {
    assert (ps + [c])[..|ps|] == ps;
  }

  lemma {:induction false} KeyCountOfMember(ps: seq<string>, p: string)
    requires p in ps
    ensures KeyCount(ps, Lower(p)) > 0
  {
    if ps[|ps| - 1] != p {
      assert p in ps[..|ps| - 1];
      KeyCountOfMember(ps[..|ps| - 1], p);
    }
  }

  /** The first name in `ps` with lower-case form `key`. */
  function FirstWithKey(ps: seq<string>, key: string): (p: string)
    requires KeyCount(ps, key) > 0
    ensures p in ps && Lower(p) == key
  {
    var init := ps[..|ps| - 1];
    if KeyCount(init, key) > 0 then
      var p := FirstWithKey(init, key);
      assert p in ps by { assert forall x :: x in init ==> x in ps; }
      p
    else ps[|ps| - 1]
  }

  lemma FirstWithKeySnoc(ps: seq<string>, c: string, key: string)
    requires KeyCount(ps + [c], key) > 0
    ensures KeyCount(ps, key) > 0 ==> FirstWithKey(ps + [c], key) == FirstWithKey(ps, key)
    ensures KeyCount(ps, key) == 0 ==> FirstWithKey(ps + [c], key) == c
  {
    assert (ps + [c])[..|ps|] == ps;
  }

  /** The lower-case keys of `ps` that are not default keys, each once, in
      order of first appearance. */
  function NewKeys(ps: seq<string>): (keys: seq<string>)
    ensures forall i, j :: 0 <= i < j < |keys| ==> keys[i] != keys[j]
    ensures forall key :: key in keys <==> KeyCount(ps, key) > 0 && !IsDefaultKey(key)
  {
    if ps == [] then []
    else
      var keys := NewKeys(ps[..|ps| - 1]);
      var key := Lower(ps[|ps| - 1]);
      if IsDefaultKey(key) || key in keys then keys else keys + [key]
  }

  lemma NewKeysSnoc(ps: seq<string>, c: string)
    ensures NewKeys(ps + [c]) ==
      if IsDefaultKey(Lower(c)) || Lower(c) in NewKeys(ps) then NewKeys(ps) else NewKeys(ps) + [Lower(c)]
  {
    assert (ps + [c])[..|ps|] == ps;
  }

  /** A name whose key is no default key is not a default name. */
  lemma NotDefaultName(n: string)
    requires !IsDefaultKey(Lower(n))
    ensures n !in DefaultGenreNames
  {
    forall d | 0 <= d < |DefaultGenreNames| ensures DefaultGenreNames[d] != n {
      DefaultPositionOf(d);
    }
  }

  /** A genre after one more name with key `key` has been tallied. */
  function Counted(g: Genre, key: string): Genre {
    if GenreKey(g) == key then g.(count := g.count + 1) else g
  }

  /** The eight defaults, each counting the names with its key. */
  function DefaultTally(ps: seq<string>): (g: seq<Genre>)
    ensures |g| == |DefaultGenreNames|
    ensures forall d :: 0 <= d < |g| ==>
      g[d] == Genre(DefaultGenreNames[d], DefaultGenreNames[d], KeyCount(ps, DefaultKey(d)))
  {
    seq(|DefaultGenreNames|, d requires 0 <= d < |DefaultGenreNames| =>
      Genre(DefaultGenreNames[d], DefaultGenreNames[d], KeyCount(ps, DefaultKey(d))))
  }

  lemma DefaultTallySnoc(ps: seq<string>, c: string)
    ensures forall d :: 0 <= d < |DefaultGenreNames| ==>
      DefaultTally(ps + [c])[d] == Counted(DefaultTally(ps)[d], Lower(c))
  {
    forall d | 0 <= d < |DefaultGenreNames|
      ensures DefaultTally(ps + [c])[d] == Counted(DefaultTally(ps)[d], Lower(c))
    {
      KeyCountSnoc(ps, c, DefaultKey(d));
    }
  }

  /** One genre per new key, named after the first name with that key. */
  function AddedTally(ps: seq<string>): (g: seq<Genre>)
    ensures |g| == |NewKeys(ps)|
    ensures forall i :: 0 <= i < |g| ==>
      var key := NewKeys(ps)[i];
      g[i] == Genre(FirstWithKey(ps, key), FirstWithKey(ps, key), KeyCount(ps, key)) && IsUserAdded(g[i])
  {
    var keys := NewKeys(ps);
    var added := seq(|keys|, i requires 0 <= i < |keys| =>
      var n := FirstWithKey(ps, keys[i]); Genre(n, n, KeyCount(ps, keys[i])));
    forall i | 0 <= i < |keys| ensures IsUserAdded(added[i]) {
      NotDefaultName(added[i].name);
    }
    added
  }

  lemma AddedTallySnoc(ps: seq<string>, c: string)
    ensures var a, a', key := AddedTally(ps), AddedTally(ps + [c]), Lower(c);
      && |a'| == |a| + (if IsDefaultKey(key) || key in NewKeys(ps) then 0 else 1)
      && (forall i :: 0 <= i < |a| ==> a'[i] == Counted(a[i], key))
      && (|a'| > |a| ==> a'[|a|] == Genre(c, c, 1))
  {
    var a, a', key := AddedTally(ps), AddedTally(ps + [c]), Lower(c);
    NewKeysSnoc(ps, c);
    forall i | 0 <= i < |a| ensures a'[i] == Counted(a[i], key) {
      var x := NewKeys(ps)[i];
      KeyCountSnoc(ps, c, x);
      FirstWithKeySnoc(ps, c, x);
    }
    if |a'| > |a| {
      KeyCountSnoc(ps, c, key);
      FirstWithKeySnoc(ps, c, key);
    }
  }

  /** The genre list the tally must produce for accepted names `ps`: the
      eight defaults, counting the names that match them, then one genre
      per new key in order of first appearance, named after its first
      name and counting every name with that key. */
  function TallyOf(ps: seq<string>): (g: seq<Genre>)
    ensures |g| == |DefaultGenreNames| + |NewKeys(ps)|
  {
    DefaultTally(ps) + AddedTally(ps)
  }

  /** Default `d` keeps its place, its name, and counts the names with its
      key. */
  lemma TallyDefault(ps: seq<string>, d: nat)
    requires d < |DefaultGenreNames|
    ensures TallyOf(ps)[d] == Genre(DefaultGenreNames[d], DefaultGenreNames[d], KeyCount(ps, DefaultKey(d)))
    ensures GenreKey(TallyOf(ps)[d]) == DefaultKey(d)
  {
    assert TallyOf(ps)[d] == DefaultTally(ps)[d];
  }

  /** After the defaults come the new keys in order: each genre is named
      after the first name with its key, counts every name with that key,
      and is user-added. */
  lemma TallyAdded(ps: seq<string>, i: nat)
    requires i < |NewKeys(ps)|
    ensures var g, key := TallyOf(ps)[|DefaultGenreNames| + i], NewKeys(ps)[i];
      && g == Genre(FirstWithKey(ps, key), FirstWithKey(ps, key), KeyCount(ps, key))
      && GenreKey(g) == key && IsUserAdded(g)
  {
    assert TallyOf(ps)[|DefaultGenreNames| + i] == AddedTally(ps)[i];
  }

  /** Every genre of the tally links to its own name and counts exactly
      the accepted names with its key. */
  lemma TallyCounts(ps: seq<string>)
    ensures forall i :: 0 <= i < |TallyOf(ps)| ==>
      TallyOf(ps)[i].link == TallyOf(ps)[i].name && TallyOf(ps)[i].count == KeyCount(ps, GenreKey(TallyOf(ps)[i]))
  {
    var g, n := TallyOf(ps), |DefaultGenreNames|;
    forall i | 0 <= i < |g| ensures g[i].link == g[i].name && g[i].count == KeyCount(ps, GenreKey(g[i])) {
      if i < n {
        TallyDefault(ps, i);
      } else {
        TallyAdded(ps, i - n);
      }
    }
  }

  /** No two genres of the tally share a key. */
  lemma TallyKeysUnique(ps: seq<string>)
    ensures forall i, j :: 0 <= i < j < |TallyOf(ps)| ==> GenreKey(TallyOf(ps)[i]) != GenreKey(TallyOf(ps)[j])
  {
    var g := TallyOf(ps);
    var n := |DefaultGenreNames|;
    DefaultKeysDistinct();
    forall i, j | 0 <= i < j < |g| ensures GenreKey(g[i]) != GenreKey(g[j]) {
      if j < n {
        TallyDefault(ps, i);
        TallyDefault(ps, j);
      } else {
        TallyAdded(ps, j - n);
        if i < n {
          TallyDefault(ps, i);
          DefaultPositionOf(i);
        } else {
          TallyAdded(ps, i - n);
        }
      }
    }
  }

  lemma TallyHasDefaultKey(ps: seq<string>, key: string)
    requires IsDefaultKey(key)
    ensures exists i :: 0 <= i < |TallyOf(ps)| && GenreKey(TallyOf(ps)[i]) == key
  {
    var e := DefaultPosition(key);
    TallyDefault(ps, e);
  }

  lemma TallyHasNewKey(ps: seq<string>, key: string)
    requires key in NewKeys(ps)
    ensures exists i :: 0 <= i < |TallyOf(ps)| && GenreKey(TallyOf(ps)[i]) == key
  {
    var e :| 0 <= e < |NewKeys(ps)| && NewKeys(ps)[e] == key;
    TallyAdded(ps, e);
  }

  lemma TallyKeyKind(ps: seq<string>, i: nat)
    requires i < |TallyOf(ps)|
    ensures IsDefaultKey(GenreKey(TallyOf(ps)[i])) || GenreKey(TallyOf(ps)[i]) in NewKeys(ps)
  {
    if i < |DefaultGenreNames| {
      DefaultPositionOf(i);
      TallyDefault(ps, i);
    } else {
      TallyAdded(ps, i - |DefaultGenreNames|);
    }
  }

  /** A key belongs to a genre of the tally exactly when it is a default
      key or one of the new keys. */
  lemma TallyHasKey(ps: seq<string>, key: string)
    ensures (exists i :: 0 <= i < |TallyOf(ps)| && GenreKey(TallyOf(ps)[i]) == key) <==> IsDefaultKey(key) || key in NewKeys(ps)
  {
    if IsDefaultKey(key) {
      TallyHasDefaultKey(ps, key);
    } else if key in NewKeys(ps) {
      TallyHasNewKey(ps, key);
    }
    if i :| 0 <= i < |TallyOf(ps)| && GenreKey(TallyOf(ps)[i]) == key {
      TallyKeyKind(ps, i);
    }
  }

  /** The key of every accepted name belongs to a genre of the tally. */
  lemma TallyCovers(ps: seq<string>)
    ensures forall p :: p in ps ==> exists i :: 0 <= i < |TallyOf(ps)| && GenreKey(TallyOf(ps)[i]) == Lower(p)
  {
    forall p | p in ps ensures exists i :: 0 <= i < |TallyOf(ps)| && GenreKey(TallyOf(ps)[i]) == Lower(p) {
      KeyCountOfMember(ps, p);
      TallyHasKey(ps, Lower(p));
    }
  }

  /** One more accepted name: every genre is `Counted` against its key,
      and a genre named after it with count one is appended exactly when
      no genre had its key. */
  lemma TallyOfSnoc(ps: seq<string>, c: string)
    ensures var g, g', key := TallyOf(ps), TallyOf(ps + [c]), Lower(c);
      && |g'| == |g| + (if exists i :: 0 <= i < |g| && GenreKey(g[i]) == key then 0 else 1)
      && (forall i :: 0 <= i < |g| ==> g'[i] == Counted(g[i], key))
      && (|g'| > |g| ==> g'[|g|] == Genre(c, c, 1))
  {
    var g, g', key := TallyOf(ps), TallyOf(ps + [c]), Lower(c);
    var n := |DefaultGenreNames|;
    var d, d' := DefaultTally(ps), DefaultTally(ps + [c]);
    var a, a' := AddedTally(ps), AddedTally(ps + [c]);
    DefaultTallySnoc(ps, c);
    AddedTallySnoc(ps, c);
    assert g == d + a && g' == d' + a';
    forall i | 0 <= i < |g| ensures g'[i] == Counted(g[i], key) {
      if i < n {
        assert g'[i] == d'[i] && g[i] == d[i];
      } else {
        assert g'[i] == a'[i - n] && g[i] == a[i - n];
      }
    }
    if |a'| > |a| {
      assert g'[|g|] == a'[|a|];
    }
    TallyHasKey(ps, key);
  }

  /** One more accepted name whose key is already the key of genre `k`
      adds one to that genre's count and changes nothing else. */
  lemma TallyOfBump(ps: seq<string>, c: string, k: nat)
    requires k < |TallyOf(ps)| && GenreKey(TallyOf(ps)[k]) == Lower(c)
    ensures TallyOf(ps + [c]) == TallyOf(ps)[k := TallyOf(ps)[k].(count := TallyOf(ps)[k].count + 1)]
  {
    var g, g' := TallyOf(ps), TallyOf(ps + [c]);
    TallyOfSnoc(ps, c);
    TallyKeysUnique(ps);
    assert |g'| == |g|;
    forall i | 0 <= i < |g| ensures g'[i] == g[k := g[k].(count := g[k].count + 1)][i] {
      assert g'[i] == Counted(g[i], Lower(c));
    }
  }

  /** One more accepted name whose key no genre has yet appends a genre
      named after it with count one. */
  lemma TallyOfAppend(ps: seq<string>, c: string)
    requires forall i :: 0 <= i < |TallyOf(ps)| ==> GenreKey(TallyOf(ps)[i]) != Lower(c)
    ensures TallyOf(ps + [c]) == TallyOf(ps) + [Genre(c, c, 1)]
  {
    var g, g' := TallyOf(ps), TallyOf(ps + [c]);
    TallyOfSnoc(ps, c);
    assert |g'| == |g| + 1;
    forall i | 0 <= i < |g'| ensures g'[i] == (g + [Genre(c, c, 1)])[i] {
      if i < |g| {
        assert g'[i] == Counted(g[i], Lower(c));
      }
    }
  }

  /** Sum of the counts. */
  function TotalCount(g: seq<Genre>): nat {
    if g == [] then 0 else TotalCount(g[..|g| - 1]) + g[|g| - 1].count
  }

  lemma {:induction false} TotalCountBump(g: seq<Genre>, k: nat)
    requires k < |g|
    ensures TotalCount(g[k := g[k].(count := g[k].count + 1)]) == TotalCount(g) + 1
  {
    var g' := g[k := g[k].(count := g[k].count + 1)];
    if k < |g| - 1 {
      assert g'[..|g| - 1] == g[..|g| - 1][k := g[k].(count := g[k].count + 1)];
      TotalCountBump(g[..|g| - 1], k);
    } else {
      assert g'[..|g| - 1] == g[..|g| - 1];
    }
  }

  lemma TotalCountSnoc(g: seq<Genre>, x: Genre)
    ensures TotalCount(g + [x]) == TotalCount(g) + x.count
  {
    assert (g + [x])[..|g|] == g;
  }

  lemma {:induction false} TotalCountZero(g: seq<Genre>)
    requires forall i :: 0 <= i < |g| ==> g[i].count == 0
    ensures TotalCount(g) == 0
  {
    if g != [] {
      TotalCountZero(g[..|g| - 1]);
    }
  }

  /** Every accepted name is counted exactly once: the counts add up to
      the number of accepted names. */
  lemma {:induction false} TallyTotal(ps: seq<string>)
    ensures TotalCount(TallyOf(ps)) == |ps|
  {
    if ps == [] {
      TotalCountZero(TallyOf(ps));
    } else {
      var init, c := ps[..|ps| - 1], ps[|ps| - 1];
      assert ps == init + [c];
      TallyTotal(init);
      TallyTotalSnoc(init, c);
    }
  }

  /** One more accepted name adds one to the total. */
  lemma TallyTotalSnoc(ps: seq<string>, c: string)
    ensures TotalCount(TallyOf(ps + [c])) == TotalCount(TallyOf(ps)) + 1
  {
    var g := TallyOf(ps);
    if k :| 0 <= k < |g| && GenreKey(g[k]) == Lower(c) {
      TallyTotalBump(ps, c, k);
    } else {
      TallyTotalAppend(ps, c);
    }
  }

  lemma TallyTotalBump(ps: seq<string>, c: string, k: nat)
    requires k < |TallyOf(ps)| && GenreKey(TallyOf(ps)[k]) == Lower(c)
    ensures TotalCount(TallyOf(ps + [c])) == TotalCount(TallyOf(ps)) + 1
  {
    var g := TallyOf(ps);
    var bumped := g[k := g[k].(count := g[k].count + 1)];
    assert TallyOf(ps + [c]) == bumped by {
      TallyOfBump(ps, c, k);
    }
    TotalCountBump(g, k);
  }

  lemma TallyTotalAppend(ps: seq<string>, c: string)
    requires forall i :: 0 <= i < |TallyOf(ps)| ==> GenreKey(TallyOf(ps)[i]) != Lower(c)
    ensures TotalCount(TallyOf(ps + [c])) == TotalCount(TallyOf(ps)) + 1
  {
    TallyOfAppend(ps, c);
    TotalCountSnoc(TallyOf(ps), Genre(c, c, 1));
  }

  // ---------------------------------------------------------------
  // The tally as the handler computes it

  /** `index` is the genre map: it sends each genre's key to the genre's
      position, and has no other keys. */
  ghost predicate IndexOk(index: map<string, nat>, genres: seq<Genre>) {
    && (forall i :: 0 <= i < |genres| ==> GenreKey(genres[i]) in index && index[GenreKey(genres[i])] == i)
    && (forall key :: key in index ==> index[key] < |genres| && GenreKey(genres[index[key]]) == key)
  }

  lemma AcceptedOfSnoc(ps: seq<string>, raws: seq<string>, j: nat)
    requires j < |raws|
    ensures ps + AcceptedOf(raws[..j + 1]) == (ps + AcceptedOf(raws[..j])) + AcceptedOne(raws[j])
  {
    assert raws[..j + 1][..j] == raws[..j];
    var a, b := AcceptedOf(raws[..j]), AcceptedOne(raws[j]);
    assert AcceptedOf(raws[..j + 1]) == a + b;
    AppendAssoc(ps, a, b);
  }

  lemma AcceptedPiecesSnoc(favs: seq<Favorite>, i: nat)
    requires i < |favs|
    ensures AcceptedPieces(favs[..i + 1]) == AcceptedPieces(favs[..i]) + AcceptedOf(CategoryPieces(favs[i]))
  {
    assert favs[..i + 1][..i] == favs[..i];
  }

  /** The defaults, in order, each with count 0 and its key in the map. */
  method StartTally() returns (genres: seq<Genre>, index: map<string, nat>)
    ensures genres == TallyOf([]) && IndexOk(index, genres)
  {
    genres := [];
    index := map[];
    DefaultKeysDistinct();
    for d := 0 to |DefaultGenreNames|
      invariant |genres| == d
      invariant forall e :: 0 <= e < d ==> genres[e] == Genre(DefaultGenreNames[e], DefaultGenreNames[e], 0)
      invariant IndexOk(index, genres)
    {
      var name := DefaultGenreNames[d];
      forall key | key in index ensures key != Lower(name) {
        var e := index[key];
        assert e < d && genres[e].name == DefaultGenreNames[e];
        assert key == DefaultKey(e) && DefaultKey(e) != DefaultKey(d);
        assert Lower(name) == DefaultKey(d);
      }
      genres := genres + [Genre(name, name, 0)];
      index := index[Lower(name) := |genres| - 1];
    }
    assert genres == TallyOf([]);
  }

  lemma IndexOkBump(index: map<string, nat>, genres: seq<Genre>, k: nat)
    requires IndexOk(index, genres) && k < |genres|
    ensures IndexOk(index, genres[k := genres[k].(count := genres[k].count + 1)])
  {
    var g' := genres[k := genres[k].(count := genres[k].count + 1)];
    assert forall i :: 0 <= i < |genres| ==> GenreKey(g'[i]) == GenreKey(genres[i]);
  }

  lemma IndexOkAppend(index: map<string, nat>, genres: seq<Genre>, g: Genre)
    requires IndexOk(index, genres) && GenreKey(g) !in index
    ensures IndexOk(index[GenreKey(g) := |genres|], genres + [g])
  {
  }

  /** One accepted name: the genre with its key gets one more count, or a
      genre named after it with count one is appended and entered in the
      map. */
  method CountName(before: seq<Genre>, beforeIndex: map<string, nat>, c: string, ghost ps: seq<string>)
    returns (genres: seq<Genre>, index: map<string, nat>)
    requires before == TallyOf(ps) && IndexOk(beforeIndex, before)
    ensures genres == TallyOf(ps + [c]) && IndexOk(index, genres)
  {
    var key := Lower(c);
    if key in beforeIndex {
      var k := beforeIndex[key];
      TallyOfBump(ps, c, k);
      IndexOkBump(beforeIndex, before, k);
      genres := before[k := before[k].(count := before[k].count + 1)];
      index := beforeIndex;
    } else {
      TallyOfAppend(ps, c);
      IndexOkAppend(beforeIndex, before, Genre(c, c, 1));
      genres := before + [Genre(c, c, 1)];
      index := beforeIndex[key := |before|];
    }
  }

  /** One comma-separated piece: normalised, skipped when short, and
      otherwise title-cased and counted. */
  method TallyCategory(before: seq<Genre>, beforeIndex: map<string, nat>, raw: string, ghost ps: seq<string>)
    returns (genres: seq<Genre>, index: map<string, nat>)
    requires before == TallyOf(ps) && IndexOk(beforeIndex, before)
    ensures genres == TallyOf(ps + AcceptedOne(raw)) && IndexOk(index, genres)
  {
    var c := NormalizeCategory(raw);
    if |c| < MinCategoryLength {
      assert ps + AcceptedOne(raw) == ps;
      return before, beforeIndex;
    }
    c := Title(c);
    assert ps + AcceptedOne(raw) == ps + [c];
    genres, index := CountName(before, beforeIndex, c, ps);
  }

  /** Piece `j` of a favorite's categories, counted after pieces `..j`. */
  method TallyNextPiece(before: seq<Genre>, beforeIndex: map<string, nat>, raws: seq<string>, j: nat, ghost ps: seq<string>)
    returns (genres: seq<Genre>, index: map<string, nat>)
    requires j < |raws|
    requires before == TallyOf(ps + AcceptedOf(raws[..j])) && IndexOk(beforeIndex, before)
    ensures genres == TallyOf(ps + AcceptedOf(raws[..j + 1])) && IndexOk(index, genres)
  {
    AcceptedOfSnoc(ps, raws, j);
    genres, index := TallyCategory(before, beforeIndex, raws[j], ps + AcceptedOf(raws[..j]));
  }

  /** The comma-separated pieces of one favorite, in order. */
  method TallyPieces(before: seq<Genre>, beforeIndex: map<string, nat>, raws: seq<string>, ghost ps: seq<string>)
    returns (genres: seq<Genre>, index: map<string, nat>)
    requires before == TallyOf(ps) && IndexOk(beforeIndex, before)
    ensures genres == TallyOf(ps + AcceptedOf(raws)) && IndexOk(index, genres)
  {
    genres, index := before, beforeIndex;
    assert ps + AcceptedOf(raws[..0]) == ps;
    for j := 0 to |raws|
      invariant genres == TallyOf(ps + AcceptedOf(raws[..j])) && IndexOk(index, genres)
    {
      genres, index := TallyNextPiece(genres, index, raws, j, ps);
    }
    assert raws[..|raws|] == raws;
  }

  /** A favorite with missing or empty categories adds nothing. */
  method TallyFavorite(before: seq<Genre>, beforeIndex: map<string, nat>, fav: Favorite, ghost ps: seq<string>)
    returns (genres: seq<Genre>, index: map<string, nat>)
    requires before == TallyOf(ps) && IndexOk(beforeIndex, before)
    ensures genres == TallyOf(ps + AcceptedOf(CategoryPieces(fav))) && IndexOk(index, genres)
  {
    if fav.categories.Some? && fav.categories.value != "" {
      genres, index := TallyPieces(before, beforeIndex, Split(fav.categories.value, ','), ps);
    } else {
      assert ps + AcceptedOf(CategoryPieces(fav)) == ps;
      genres, index := before, beforeIndex;
    }
  }

  /** The tally loop: defaults first, then every accepted piece of every
      favorite either bumps the genre with its key or appends a new one. */
  method TallyGenres(favorites: seq<Favorite>) returns (genres: seq<Genre>)
    ensures genres == TallyOf(AcceptedPieces(favorites))
  {
    var index;
    genres, index := StartTally();
    for i := 0 to |favorites|
      invariant genres == TallyOf(AcceptedPieces(favorites[..i]))
      invariant IndexOk(index, genres)
    {
      AcceptedPiecesSnoc(favorites, i);
      genres, index := TallyFavorite(genres, index, favorites[i], AcceptedPieces(favorites[..i]));
    }
    assert favorites[..|favorites|] == favorites;
  }

  // ---------------------------------------------------------------
  // Ordering and truncation

  /** The sort key `(count, user-added)` as one number: a higher count
      wins, and at equal counts a user-added genre wins. */
  function Rank(g: Genre): nat {
    2 * g.count + (if IsUserAdded(g) then 1 else 0)
  }

  /** Non-increasing in `key`. */
  ghost predicate SortedDown(s: seq<Genre>, key: Genre -> nat) {
    forall i, j :: 0 <= i < j < |s| ==> key(s[i]) >= key(s[j])
  }

  /** `g` placed before the first genre whose key is not above its own. */
  function InsertDown(g: Genre, s: seq<Genre>, key: Genre -> nat): (r: seq<Genre>)
    ensures |r| == |s| + 1
  {
    if s == [] || key(g) >= key(s[0]) then [g] + s else [s[0]] + InsertDown(g, s[1..], key)
  }

  /** Inserting adds `g` and nothing else. */
  lemma {:induction false} InsertDownMembers(g: Genre, s: seq<Genre>, key: Genre -> nat)
    ensures forall i :: 0 <= i < |InsertDown(g, s, key)| ==> InsertDown(g, s, key)[i] == g || InsertDown(g, s, key)[i] in s
  {
    if s != [] && key(g) < key(s[0]) {
      InsertDownMembers(g, s[1..], key);
      var r, t := InsertDown(g, s, key), InsertDown(g, s[1..], key);
      forall i | 0 <= i < |r| ensures r[i] == g || r[i] in s {
        if i > 0 {
          assert r[i] == t[i - 1];
          assert forall x :: x in s[1..] ==> x in s;
        }
      }
    }
  }

  /** Inserting into a sorted list keeps it sorted. */
  lemma {:induction false} InsertDownSorted(g: Genre, s: seq<Genre>, key: Genre -> nat)
    requires SortedDown(s, key)
    ensures SortedDown(InsertDown(g, s, key), key)
  {
    if s == [] {
    } else if key(g) >= key(s[0]) {
      assert forall j :: 0 <= j < |s| ==> key(g) >= key(s[0]) >= key(s[j]);
    } else {
      var tail := s[1..];
      assert SortedDown(tail, key);
      InsertDownSorted(g, tail, key);
      InsertDownMembers(g, tail, key);
      var t := InsertDown(g, tail, key);
      forall j | 0 <= j < |t| ensures key(s[0]) >= key(t[j]) {
        if t[j] != g {
          var m :| 0 <= m < |tail| && tail[m] == t[j];
          assert s[m + 1] == t[j];
        }
      }
      assert InsertDown(g, s, key) == [s[0]] + t;
    }
  }

  lemma {:induction false} InsertDownPermutes(g: Genre, s: seq<Genre>, key: Genre -> nat)
    ensures multiset(InsertDown(g, s, key)) == multiset(s) + multiset{g}
  {
    if s != [] && key(g) < key(s[0]) {
      InsertDownPermutes(g, s[1..], key);
      HeadTail(s);
    }
  }

  /** `sorted(gs, key=key, reverse=True)`: a stable sort into
      non-increasing key order. */
  function SortDown(gs: seq<Genre>, key: Genre -> nat): (r: seq<Genre>)
    ensures |r| == |gs|
    ensures SortedDown(r, key)
  {
    if gs == [] then []
    else
      var t := SortDown(gs[1..], key);
      InsertDownSorted(gs[0], t, key);
      InsertDown(gs[0], t, key)
  }

  /** The sort only reorders: it returns the same genres, each as often. */
  lemma {:induction false} SortDownPermutes(gs: seq<Genre>, key: Genre -> nat)
    ensures multiset(SortDown(gs, key)) == multiset(gs)
  {
    if gs != [] {
      SortDownPermutes(gs[1..], key);
      InsertDownPermutes(gs[0], SortDown(gs[1..], key), key);
      HeadTail(gs);
    }
  }

  /** The genres whose key is `k`, in order. */
  function WithKey(s: seq<Genre>, key: Genre -> nat, k: nat): seq<Genre> {
    if s == [] then [] else (if key(s[0]) == k then [s[0]] else []) + WithKey(s[1..], key, k)
  }

  lemma WithKeyCons(x: Genre, rest: seq<Genre>, key: Genre -> nat, k: nat)
    ensures WithKey([x] + rest, key, k) == (if key(x) == k then [x] else []) + WithKey(rest, key, k)
  {
    assert ([x] + rest)[1..] == rest;
  }

  lemma {:induction false} InsertDownStable(g: Genre, s: seq<Genre>, key: Genre -> nat, k: nat)
    ensures WithKey(InsertDown(g, s, key), key, k) == WithKey([g] + s, key, k)
  {
    if s != [] && key(g) < key(s[0]) {
      var h, tail := s[0], s[1..];
      InsertDownStable(g, tail, key, k);
      var hk := if key(h) == k then [h] else [];
      var gk := if key(g) == k then [g] else [];
      assert hk == [] || gk == [];
      HeadTail(s);
      WithKeyCons(h, InsertDown(g, tail, key), key, k);
      WithKeyCons(g, tail, key, k);
      WithKeyCons(g, s, key, k);
      WithKeyCons(h, tail, key, k);
      assert hk + (gk + WithKey(tail, key, k)) == gk + (hk + WithKey(tail, key, k));
    }
  }

  /** The sort is stable: genres with equal keys keep their relative
      order. */
  lemma {:induction false} SortDownStable(gs: seq<Genre>, key: Genre -> nat, k: nat)
    ensures WithKey(SortDown(gs, key), key, k) == WithKey(gs, key, k)
  {
    if gs != [] {
      SortDownStable(gs[1..], key, k);
      InsertDownStable(gs[0], SortDown(gs[1..], key), key, k);
      assert ([gs[0]] + SortDown(gs[1..], key))[1..] == SortDown(gs[1..], key);
    }
  }

  /** In the sorted list counts never increase, and at equal counts no
      default comes before a user-added genre. */
  lemma SortGenresOrder(gs: seq<Genre>)
    ensures forall i, j :: 0 <= i < j < |SortDown(gs, Rank)| ==>
      var a, b := SortDown(gs, Rank)[i], SortDown(gs, Rank)[j];
      a.count >= b.count && (a.count == b.count && IsUserAdded(b) ==> IsUserAdded(a))
  {
    var r := SortDown(gs, Rank);
    forall i, j | 0 <= i < j < |r| ensures r[i].count >= r[j].count && (r[i].count == r[j].count && IsUserAdded(r[j]) ==> IsUserAdded(r[i])) {
      assert Rank(r[i]) >= Rank(r[j]);
    }
  }

  /** `genres[:15]`. */
  function TopGenres(s: seq<Genre>): (r: seq<Genre>)
    ensures |r| == if |s| < MaxGenres then |s| else MaxGenres
    ensures r == s[..|r|]
  {
    if |s| <= MaxGenres then s else s[..MaxGenres]
  }

  /** The list the homepage shows for accepted names `ps`: a prefix of the
      sorted tally, of length min(15, 8 + number of new keys). */
  lemma HomepageGenresLength(ps: seq<string>)
    ensures var shown := TopGenres(SortDown(TallyOf(ps), Rank));
            |shown| == if |DefaultGenreNames| + |NewKeys(ps)| < MaxGenres then |DefaultGenreNames| + |NewKeys(ps)| else MaxGenres
  {
  }
}
