/**
The meme table and the operations of `MemeHandler` on it. The SQLite table is a map from id to row; every
statement on it is atomic and succeeds.
*/
module MemeStore {
  import opened Text
  import opened HtmlCodec
  import opened FormCodec
  import opened MemeIds
  import opened MemeSearch

  datatype Row = Row(name: string, image: string, top: string, bottom: string, token: string)

  type Table = map<string, Row>

  const MASTER_TOKEN: string := "partialnotcomplete"

  /** The token of a row that an edit of a missing id creates. */
  const DEFAULT_TOKEN: string := "00001"

  // ---- Access tokens ----

  predicate Alphanumeric(c: char) {
    'a' <= c <= 'z' || 'A' <= c <= 'Z' || '0' <= c <= '9'
  }

  function TokenChar(draw: nat): (c: char)
    ensures Alphanumeric(c)
  {
    var r := draw % 62;
    if r < 26 then 'a' + r as char
    else if r < 52 then 'A' + (r - 26) as char
    else '0' + (r - 52) as char
  }

  function Scramble(draws: seq<nat>): (s: string)
    ensures |s| == |draws| && forall c :: c in s ==> Alphanumeric(c)
  {
    seq(|draws|, i requires 0 <= i < |draws| => TokenChar(draws[i]))
  }

  /** A draw picks a letter or digit by its remainder modulo 62: 26 small letters, 26 capitals, 10 digits. So two
      draws give one character exactly when they agree modulo 62. */
  lemma DrawPicks(draws: seq<nat>, i: nat, j: nat)
    requires i < |draws| && j < |draws|
    ensures var r := draws[i] % 62;
            Scramble(draws)[i] as int ==
            if r < 26 then 'a' as int + r else if r < 52 then 'A' as int + (r - 26) else '0' as int + (r - 52)
    ensures Scramble(draws)[i] == Scramble(draws)[j] <==> draws[i] % 62 == draws[j] % 62
  {
    assert Scramble(draws)[i] == TokenChar(draws[i]) && Scramble(draws)[j] == TokenChar(draws[j]);
  }

  /** `gen_access_token`: two characters for each of `len`; `draws` is what rand returns. */
  method GenAccessToken(len: nat, draws: seq<nat>) returns (scramble: string)
    requires |draws| >= 2 * len
    ensures scramble == Scramble(draws[..2 * len])
  {
    scramble := "";
    for i := 0 to len * 2
      invariant scramble == Scramble(draws[..i])
    {
      var randomChar := draws[i] % (26 + 26 + 10);
      if randomChar < 26 {
        scramble := scramble + ['a' + randomChar as char];
      } else if randomChar < 26 + 26 {
        scramble := scramble + ['A' + (randomChar - 26) as char];
      } else {
        scramble := scramble + ['0' + (randomChar - 26 - 26) as char];
      }
    }
  }

  /** The id, a dash, and twice as many alphanumerics as the id has digits. */
  predicate TokenFor(id: string, token: string) {
    && |token| == 3 * |id| + 1
    && token[..|id|] == id
    && token[|id|] == '-'
    && forall c :: c in token[|id| + 1..] ==> Alphanumeric(c)
  }

  lemma TokenForMade(id: string, draws: seq<nat>)
    requires |draws| == 2 * |id|
    ensures TokenFor(id, id + "-" + Scramble(draws))
  {
    var token := id + "-" + Scramble(draws);
    assert token[|id| + 1..] == Scramble(draws);
  }

  lemma NumeralNoDash(id: string)
    requires Numeral(id)
    ensures Free(id, {'-'})
  {
  }

  /** The part of a token before the first dash is its id. */
  lemma TokenSplits(id: string, token: string)
    requires Numeral(id) && TokenFor(id, token)
    ensures Split(token, {'-'})[0] == id && '-' in token
  {
    var rest := token[|id| + 1..];
    NumeralNoDash(id);
    assert token[|id|] in token;
    assert token == id + "-" + rest;
    if rest != "" {
      assert rest[0] in rest;
    }
    assert rest != "" ==> Alphanumeric(rest[0]) && rest[0] !in {'-'};
    var run := ['-'];
    assert forall c :: c in run ==> c in {'-'};
    SplitPiece(id, run, rest, {'-'});
  }

  /** A token belongs to one id, whatever rand returned. */
  lemma TokenDetermines(a: string, b: string, token: string)
    requires Numeral(a) && Numeral(b) && TokenFor(a, token) && TokenFor(b, token)
    ensures a == b
  {
    TokenSplits(a, token);
    TokenSplits(b, token);
  }

  // ---- The store ----

  ghost predicate TableHolds(t: Table) {
    forall id :: id in t ==> Numeral(id) && TokenFor(id, t[id].token)
  }

  /** What `verifyTokenAuthentication` checks: the master token, or one with a dash that a row holds whose id is
      the part before the dash. */
  predicate Authorized(t: Table, token: string) {
    token == MASTER_TOKEN ||
    ('-' in token && exists id :: id in t && t[id].token == token && id == Split(token, {'-'})[0])
  }

  /** On any table: the master token, or the token of a row that is the row's id, a dash, and anything. */
  lemma AuthorizedMeans(t: Table, token: string)
    ensures Authorized(t, token) <==>
            token == "partialnotcomplete" ||
            exists id, rest :: id in t && t[id].token == token && token == id + "-" + rest && '-' !in id
  {
    if '-' in token {
      FirstDash(token);
    }
    forall id, rest | token == id + "-" + rest && '-' !in id
      ensures '-' in token && Split(token, {'-'})[0] == id
    {
      DashSplits(id, rest);
    }
    hide Split;
  }

  lemma DashSplits(id: string, rest: string)
    requires '-' !in id
    ensures '-' in id + "-" + rest && Split(id + "-" + rest, {'-'})[0] == id
  {
    var token := id + "-" + rest;
    assert token == id + ("-" + rest) && token[|id|] == '-';
    HeadOf(id, "-" + rest, {'-'});
  }

  lemma FirstDash(token: string)
    requires '-' in token
    ensures var id := Split(token, {'-'})[0];
            '-' !in id && |id| < |token| && token == id + "-" + token[|id| + 1..]
  {
    var h := Head(token, {'-'});
    assert h == token[..|h|] && token == token[..|token|];
    assert token == token[..|h|] + [token[|h|]] + token[|h| + 1..];
  }

  /** Where every row has its token, that is whether some row holds the token; and the row is the only one. */
  lemma AuthorizedIff(t: Table, token: string)
    requires TableHolds(t)
    ensures Authorized(t, token) <==> token == MASTER_TOKEN || exists id :: id in t && t[id].token == token
    ensures forall a, b :: a in t && b in t && t[a].token == token && t[b].token == token ==> a == b
  {
    forall id | id in t && t[id].token == token
      ensures '-' in token && id == Split(token, {'-'})[0]
    {
      TokenSplits(id, token);
    }
  }

  /** The default token of a row made by editing a missing id authorizes nobody. */
  lemma DefaultTokenUseless(t: Table)
    ensures !Authorized(t, DEFAULT_TOKEN)
  {
    assert DEFAULT_TOKEN == ['0', '0', '0', '0', '1'];
    assert DEFAULT_TOKEN[0] != MASTER_TOKEN[0];
  }

  // ---- Deleting ----

  /** The largest integer literal of SQLite. */
  const SQL_INT_MAX: nat := 9223372036854775807

  const DELETE_PAGE: string := "delete?id="

  /** The part of the page behind its first "id=". */
  function PageId(page: string): string
    requires DELETE_PAGE <= page
  {
    var start := if Find(page, "id=").None? then 2 else Find(page, "id=").value + 3;
    PageIdStart(page);
    Substr(page, start, |page| - 1)
  }

  lemma PageIdStart(page: string)
    requires DELETE_PAGE <= page
    ensures Find(page, "id=") == Some(7)
  {
    assert page[..10] == DELETE_PAGE;
    forall j: nat | j < 7 ensures !OccursAt(page, "id=", j) {
      assert page[j] == DELETE_PAGE[j] && page[j + 1] == DELETE_PAGE[j + 1];
      assert page[j..][0] == page[j] && page[j..][1] == page[j + 1];
    }
    assert page[7..10] == DELETE_PAGE[7..10] == "id=";
    assert page[7..] == "id=" + page[10..];
    FindIs(page, "id=", 7);
  }

  /** The numerals that the statement's comparison is true of. The digits stand there without quotes. As an integer
      literal of SQLite they are compared as the numeral without leading zeros; beyond its range they are a REAL,
      whose text is no numeral; and without digits the statement is not valid and deletes nothing. */
  function DeletedIds(digits: string): set<string>
    requires Digits(digits)
  {
    if digits == "" || ToNat(digits) > SQL_INT_MAX then {} else {FromNat(ToNat(digits))}
  }

  /** Which ids a page deletes: the one numeral without leading zeros that has the value of the digits. */
  lemma DeletedIff(digits: string, id: string)
    requires Digits(digits)
    ensures PageId("delete?id=" + digits) == digits
    ensures id in DeletedIds(digits) <==>
            digits != "" && ToNat(digits) <= 9223372036854775807 && Canonical(id) && ToNat(id) == ToNat(digits)
  {
    PageIdStart("delete?id=" + digits);
    FromNatCanonical(ToNat(digits));
    ToFromNat(ToNat(digits));
    if Canonical(id) {
      FromToNat(id);
    }
  }

  /** A page that names an id deletes that id's row exactly when the id is an integer literal without leading zeros. */
  lemma DeletesNamedIff(id: string)
    requires Numeral(id)
    ensures PageId(DELETE_PAGE + id) == id
    ensures id in DeletedIds(id) <==> Canonical(id) && ToNat(id) <= SQL_INT_MAX
  {
    PageIdStart(DELETE_PAGE + id);
    FromNatCanonical(ToNat(id));
    if Canonical(id) {
      FromToNat(id);
    }
  }

  /** The page for 007 deletes 7, and the page for the first number beyond the range deletes no id. */
  lemma NotDeletedExamples()
    ensures DeletedIds("007") == {"7"}
    ensures var id := FromNat(SQL_INT_MAX + 1); Numeral(id) && DeletedIds(id) == {}
  {
    assert "007"[..2] == "00" && "00"[..1] == "0" && "0"[..0] == "";
    assert ToNat("0") == 0 && ToNat("00") == 0 && ToNat("007") == 7;
    ToFromNat(SQL_INT_MAX + 1);
  }

  lemma TokenNotMaster(id: string, token: string)
    requires Numeral(id) && TokenFor(id, token)
    ensures token != MASTER_TOKEN
  {
    assert token[|id|] == '-' && forall i :: 0 <= i < |MASTER_TOKEN| ==> MASTER_TOKEN[i] != '-';
  }

  /** Deleting rows revokes their tokens and no other row's. */
  lemma DeleteRevokes(t: Table, deleted: set<string>)
    requires TableHolds(t)
    ensures TableHolds(t - deleted)
    ensures forall id :: id in t ==> (Authorized(t - deleted, t[id].token) <==> id !in deleted)
  {
    forall id | id in t ensures Authorized(t - deleted, t[id].token) <==> id !in deleted {
      AuthorizedIff(t - deleted, t[id].token);
      TokenNotMaster(id, t[id].token);
      forall other | other in t && t[other].token == t[id].token ensures other == id {
        TokenDetermines(other, id, t[id].token);
      }
      if id !in deleted {
        assert id in t - deleted && (t - deleted)[id].token == t[id].token;
      }
    }
  }

  // ---- Searching ----

  /** One of the texts of a row matches the wrapped term. */
  predicate Matches(row: Row, term: string) {
    Like(SearchPattern(term), row.name) || Like(SearchPattern(term), row.top) || Like(SearchPattern(term), row.bottom)
  }

  /** The row holds this raw text, encoded, as its name or one of its texts. */
  predicate HoldsText(row: Row, raw: string) {
    row.name == HtmlEncode(raw) || row.top == HtmlEncode(raw) || row.bottom == HtmlEncode(raw)
  }

  datatype Hit = Hit(id: string, row: Row)

  /** The sort parameters for which the statement has an ORDER BY. */
  predicate Sorts(sort: string) {
    sort == "a-z" || sort == "z-a" || sort == "id"
  }

  /** `a` may stand before `b`. */
  predicate InOrder(a: Hit, b: Hit, sort: string) {
    if sort == "a-z" then LexLe(a.row.name, b.row.name)
    else if sort == "z-a" then LexLe(b.row.name, a.row.name)
    else if sort == "id" then LexLe(a.id, b.id)
    else true
  }

  predicate Ordered(hits: seq<Hit>, sort: string) {
    forall i, j :: 0 <= i < j < |hits| ==> InOrder(hits[i], hits[j], sort)
  }

  /** One more row under the statement's ORDER BY; without one, rows come as they are read. */
  function Enter(hits: seq<Hit>, h: Hit, sort: string): (r: seq<Hit>)
    ensures multiset(r) == multiset(hits) + multiset{h}
    ensures !Sorts(sort) ==> r == hits + [h]
  {
    if hits == [] then [h]
    else if Sorts(sort) && InOrder(h, hits[0], sort) then
      [h] + hits
    else
      assert hits == [hits[0]] + hits[1..];
      [hits[0]] + Enter(hits[1..], h, sort)
  }

  lemma {:induction false} EnterOrdered(hits: seq<Hit>, h: Hit, sort: string)
    requires Ordered(hits, sort)
    ensures Ordered(Enter(hits, h, sort), sort)
  {
    if hits != [] {
      var first, rest := hits[0], hits[1..];
      if Sorts(sort) && InOrder(h, first, sort) {
        forall k | 0 <= k < |hits| ensures InOrder(h, hits[k], sort) {
          InOrderTransitive(h, first, hits[k], sort);
        }
      } else {
        EnterOrdered(rest, h, sort);
        InOrderTotal(h, first, sort);
        var r := Enter(rest, h, sort);
        forall k | 0 <= k < |r| ensures InOrder(first, r[k], sort) {
          assert r[k] in multiset(r);
          if r[k] != h {
            assert r[k] in multiset(rest);
            var i :| 0 <= i < |rest| && rest[i] == r[k];
            assert hits[i + 1] == r[k];
          }
        }
      }
    }
  }

  lemma AnyOrder(hits: seq<Hit>, sort: string)
    requires !Sorts(sort) || hits == []
    ensures Ordered(hits, sort)
  {
  }

  lemma InOrderTotal(a: Hit, b: Hit, sort: string)
    ensures InOrder(a, b, sort) || InOrder(b, a, sort)
    ensures InOrder(a, a, sort)
  {
    LexTotal(a.row.name, b.row.name);
    LexTotal(a.id, b.id);
    LexTotal(a.row.name, a.row.name);
    LexTotal(a.id, a.id);
  }

  lemma InOrderTransitive(a: Hit, b: Hit, c: Hit, sort: string)
    ensures InOrder(a, b, sort) && InOrder(b, c, sort) ==> InOrder(a, c, sort)
    ensures InOrder(a, b, sort) && b == c ==> InOrder(a, c, sort)
  {
    if InOrder(a, b, sort) && InOrder(b, c, sort) {
      if sort == "a-z" {
        LexTransitive(a.row.name, b.row.name, c.row.name);
      } else if sort == "z-a" {
        LexTransitive(c.row.name, b.row.name, a.row.name);
      } else if sort == "id" {
        LexTransitive(a.id, b.id, c.id);
      }
    }
  }

  function Reversed(hits: seq<Hit>): seq<Hit> {
    seq(|hits|, i requires 0 <= i < |hits| => hits[|hits| - 1 - i])
  }

  /** `scan` is an order in which the table can be read: every id once. */
  ghost predicate Scans(scan: seq<string>, t: Table) {
    && (forall id :: id in scan <==> id in t)
    && forall i, j :: 0 <= i < j < |scan| ==> scan[i] != scan[j]
  }

  /** The matching rows, in the order of the scan. */
  function Hits(t: Table, term: string, scan: seq<string>): seq<Hit>
    requires forall id :: id in scan ==> id in t
  {
    if scan == [] then []
    else
      var n := |scan| - 1;
      Hits(t, term, scan[..n]) + if Matches(t[scan[n]], term) then [Hit(scan[n], t[scan[n]])] else []
  }

  lemma HitsNext(t: Table, term: string, scan: seq<string>, n: nat)
    requires n < |scan| && forall id :: id in scan ==> id in t
    ensures Hits(t, term, scan[..n + 1]) ==
            Hits(t, term, scan[..n]) + if Matches(t[scan[n]], term) then [Hit(scan[n], t[scan[n]])] else []
  {
    assert scan[..n + 1][..n] == scan[..n];
  }

  lemma {:induction false} HitsAre(t: Table, term: string, scan: seq<string>, n: nat)
    requires Scans(scan, t) && n <= |scan|
    ensures forall h :: h in Hits(t, term, scan[..n]) <==>
                          h.id in scan[..n] && h.row == t[h.id] && Matches(h.row, term)
  {
    if n > 0 {
      HitsAre(t, term, scan, n - 1);
      HitsNext(t, term, scan, n - 1);
      hide Hits, Matches;
      assert scan[..n] == scan[..n - 1] + [scan[n - 1]];
    }
  }

  lemma HitIsNew(t: Table, term: string, scan: seq<string>, n: nat)
    requires Scans(scan, t) && n < |scan|
    ensures Hit(scan[n], t[scan[n]]) !in Hits(t, term, scan[..n])
  {
    assert scan[n] !in scan[..n];
    HitsAre(t, term, scan, n);
  }

  ghost predicate Once(s: seq<Hit>) {
    forall h :: multiset(s)[h] <= 1
  }

  lemma CountNext(s: seq<Hit>, h: Hit)
    requires Once(s) && h !in s
    ensures Once(s + [h])
  {
    assert multiset(s)[h] == 0;
  }

  lemma {:induction false} HitsCount(t: Table, term: string, scan: seq<string>, n: nat)
    requires Scans(scan, t) && n <= |scan|
    ensures Once(Hits(t, term, scan[..n]))
  {
    if n > 0 {
      HitsCount(t, term, scan, n - 1);
      HitsNext(t, term, scan, n - 1);
      HitIsNew(t, term, scan, n - 1);
      hide Hits, Matches, Scans, Once;
      CountNext(Hits(t, term, scan[..n - 1]), Hit(scan[n - 1], t[scan[n - 1]]));
      assert Hits(t, term, scan[..n - 1]) + [] == Hits(t, term, scan[..n - 1]);
    }
  }

  /** A row in which the raw term occurs matches. */
  lemma HeldMatches(row: Row, raw: string, term: string)
    requires HoldsText(row, raw) && Holds(raw, term)
    ensures Matches(row, term)
  {
    SearchCannotMiss(term, raw);
  }

  lemma ReversedSame(hits: seq<Hit>)
    ensures multiset(Reversed(hits)) == multiset(hits)
    decreases |hits|
  {
    if hits != [] {
      var n := |hits| - 1;
      ReversedSame(hits[..n]);
      assert hits == hits[..n] + [hits[n]];
      assert Reversed(hits) == [hits[n]] + Reversed(hits[..n]);
    }
  }

  lemma CountedOnce(s: seq<Hit>, i: nat, j: nat)
    requires i < j < |s| && multiset(s)[s[i]] <= 1
    ensures s[i] != s[j]
  {
    assert s == s[..j] + s[j..] && s[i] in s[..j] && s[j] in s[j..];
  }

  lemma OrderMeans(hits: seq<Hit>, sort: string)
    requires Ordered(hits, sort)
    ensures sort == "a-z" ==> forall i, j :: 0 <= i < j < |hits| ==> LexLe(hits[i].row.name, hits[j].row.name)
    ensures sort == "z-a" ==> forall i, j :: 0 <= i < j < |hits| ==> LexLe(hits[j].row.name, hits[i].row.name)
    ensures sort == "id" ==> forall i, j :: 0 <= i < j < |hits| ==> LexLe(hits[i].id, hits[j].id)
  {
    forall i, j | 0 <= i < j < |hits| ensures InOrder(hits[i], hits[j], sort) {
    }
  }

  /** The hits stand as their ids do in the scan. */
  ghost predicate AsScanned(hits: seq<Hit>, scan: seq<string>) {
    forall i, j, a, b ::
      0 <= i < j < |hits| && 0 <= a < |scan| && 0 <= b < |scan| && scan[a] == hits[i].id && scan[b] == hits[j].id ==>
        a < b
  }

  /** The later in the scan, the earlier among the hits. */
  ghost predicate AgainstScan(hits: seq<Hit>, scan: seq<string>) {
    forall i, j, a, b ::
      0 <= i < j < |hits| && 0 <= a < |scan| && 0 <= b < |scan| && scan[a] == hits[i].id && scan[b] == hits[j].id ==>
        b < a
  }

  lemma {:induction false} HitsInOrder(t: Table, term: string, scan: seq<string>, n: nat)
    requires Scans(scan, t) && n <= |scan|
    ensures AsScanned(Hits(t, term, scan[..n]), scan)
  {
    if n > 0 {
      HitsInOrder(t, term, scan, n - 1);
      HitsAre(t, term, scan, n - 1);
      HitsNext(t, term, scan, n - 1);
      var before, id := Hits(t, term, scan[..n - 1]), scan[n - 1];
      forall h | h in before ensures h.id in scan[..n - 1] {
      }
      hide Hits, Matches;
      ScannedNext(before, Hit(id, t[id]), scan, n - 1);
    }
  }

  lemma ScannedNext(before: seq<Hit>, h: Hit, scan: seq<string>, n: nat)
    requires AsScanned(before, scan) && n < |scan| && scan[n] == h.id
    requires forall i, j :: 0 <= i < j < |scan| ==> scan[i] != scan[j]
    requires forall g :: g in before ==> g.id in scan[..n]
    ensures AsScanned(before + [], scan) && AsScanned(before + [h], scan)
  {
    assert before + [] == before;
    var hits := before + [h];
    forall i, j, a, b | 0 <= i < j < |hits| && 0 <= a < |scan| && 0 <= b < |scan| &&
                        scan[a] == hits[i].id && scan[b] == hits[j].id
      ensures a < b
    {
      if j == |before| {
        assert before[i] in before;
        var k :| 0 <= k < n && scan[..n][k] == before[i].id;
        assert scan[k] == scan[a];
      } else {
        assert hits[i] == before[i] && hits[j] == before[j];
      }
    }
  }

  lemma ReversedOrder(hits: seq<Hit>, scan: seq<string>)
    requires AsScanned(hits, scan)
    ensures AgainstScan(Reversed(hits), scan)
  {
    var n := |hits| - 1;
    forall i, j, a, b | 0 <= i < j < |hits| && 0 <= a < |scan| && 0 <= b < |scan| &&
                        scan[a] == Reversed(hits)[i].id && scan[b] == Reversed(hits)[j].id
      ensures b < a
    {
      assert scan[b] == hits[n - j].id && scan[a] == hits[n - i].id;
    }
  }

  /** Hits in whatever order: each matching row once. */
  lemma HitsOnce(found: seq<Hit>, t: Table, term: string, scan: seq<string>)
    requires Scans(scan, t) && multiset(found) == multiset(Hits(t, term, scan))
    ensures forall h :: h in found <==> h.id in t && h.row == t[h.id] && Matches(h.row, term)
    ensures forall i, j :: 0 <= i < j < |found| ==> found[i].id != found[j].id
  {
    HitsAre(t, term, scan, |scan|);
    HitsCount(t, term, scan, |scan|);
    assert scan[..|scan|] == scan;
    hide Matches, Hits;
    forall h ensures h in found <==> h in Hits(t, term, scan) {
      assert h in found <==> h in multiset(found);
    }
    forall i, j | 0 <= i < j < |found| ensures found[i].id != found[j].id {
      CountedOnce(found, i, j);
      assert found[i] in found && found[j] in found;
    }
  }

  // ---- Authorizing by form ----

  /** A body with nothing but an access token in it hands that token over as it is. */
  lemma AccessTokenBody(token: string)
    requires Free(token, {'&', '='})
    ensures BodyDefined("access-token=" + token)
    ensures Field(ParseBody("access-token=" + token), "access-token") == token
  {
    var key := "access-token";
    var body := key + "=" + token;
    assert body == "access-token=" + token;
    assert Free(key, {'&', '='});
    ItemPieces(key, token);
    SplitWhole(body, {'&'});
    assert "access" <= body;
  }

  /** So whoever submits the token of a stored row is authorized. */
  lemma RowTokenAccepted(t: Table, id: string)
    requires TableHolds(t) && id in t
    ensures var body := "access-token=" + t[id].token;
            BodyDefined(body) && Authorized(t, Field(ParseBody(body), "access-token"))
  {
    var token := t[id].token;
    assert Numeral(id) && TokenFor(id, token);
    forall c | c in token ensures c !in {'&', '='} {
      var i :| 0 <= i < |token| && token[i] == c;
      if i < |id| {
        assert id[i] in id && token[i] == token[..|id|][i];
        assert Digit(c);
      } else if i > |id| {
        assert token[|id| + 1..][i - |id| - 1] == c;
        assert Alphanumeric(c);
      }
    }
    AccessTokenBody(token);
    AuthorizedIff(t, token);
  }

  /** Whether token and page match up is not checked: the token of any row is accepted with the page of any other,
      and it is the other row that goes. */
  lemma PageOfAnotherRow(t: Table, a: string, b: string)
    requires TableHolds(t) && a in t && b in t && a != b
    requires Canonical(b) && ToNat(b) <= SQL_INT_MAX
    ensures var page, body := DELETE_PAGE + b, "access-token=" + t[a].token;
            && PageId(page) == b
            && BodyDefined(body)
            && Authorized(t, Field(ParseBody(body), "access-token"))
            && b !in t - DeletedIds(PageId(page))
            && a in t - DeletedIds(PageId(page))
  {
    RowTokenAccepted(t, a);
    DeletesNamedIff(b);
  }

  const FIRST_TOKEN: string := "10000" + "-" + "aaaaaaaaaa"

  /** Two rows, each with a token for its id. */
  function TwoRows(): Table {
    map["10000" := Row("", "", "", "", FIRST_TOKEN), "10001" := Row("", "", "", "", "10001" + "-" + "bbbbbbbbbb")]
  }

  lemma TwoRowsHold()
    ensures TableHolds(TwoRows())
  {
    assert Numeral("10000") && Numeral("10001");
    FiveAndTen("10000", "aaaaaaaaaa");
    FiveAndTen("10001", "bbbbbbbbbb");
    hide TokenFor, Numeral;
  }

  lemma FiveAndTen(id: string, scramble: string)
    requires |id| == 5 && |scramble| == 10 && forall c :: c in scramble ==> Alphanumeric(c)
    ensures TokenFor(id, id + "-" + scramble)
  {
    assert (id + "-" + scramble)[|id| + 1..] == scramble;
  }

  lemma SecondId()
    ensures Canonical("10001") && ToNat("10001") == 10001
  {
    ToFromNat(10001);
    assert FromNat(10001) == "10001";
  }

  /** Of these rows the first one's token deletes the second. */
  lemma MismatchExample()
    ensures BodyDefined("access-token=" + FIRST_TOKEN)
    ensures Authorized(TwoRows(), Field(ParseBody("access-token=" + FIRST_TOKEN), "access-token"))
    ensures PageId(DELETE_PAGE + "10001") == "10001"
    ensures Digits("10001") && (TwoRows() - DeletedIds("10001")).Keys == {"10000"}
  {
    var t := TwoRows();
    TwoRowsHold();
    assert t["10000"].token == FIRST_TOKEN && t.Keys == {"10000", "10001"};
    SecondId();
    hide TwoRows, TableHolds, BodyDefined, Authorized, ParseBody, PageId, DeletedIds, FromNat, ToNat;
    PageOfAnotherRow(t, "10000", "10001");
  }

  /** What the comment on `verifyTokenAuthentication` promises, that token and page match up: a delete with the
      token of row `a` removes no row but that of its token exactly when the page names `a` or no stored id. And
      the token's own row goes exactly when the page names it. */
  lemma PageMatchesTokenIff(t: Table, a: string, page: string)
    requires TableHolds(t) && a in t
    requires DELETE_PAGE <= page && Digits(PageId(page))
    ensures var body := "access-token=" + t[a].token;
            var deleted := DeletedIds(PageId(page));
            && BodyDefined(body)
            && Authorized(t, Field(ParseBody(body), "access-token"))
            && ((forall id :: id in t && id !in t - deleted ==> t[id].token == t[a].token) <==>
                deleted * t.Keys <= {a})
            && (a !in t - deleted <==> a in deleted)
  {
    var deleted := DeletedIds(PageId(page));
    RowTokenAccepted(t, a);
    forall id | id in t && id in deleted ensures t[id].token == t[a].token <==> id == a {
      if t[id].token == t[a].token {
        TokenDetermines(id, a, t[a].token);
      }
    }
    assert forall id :: id in t && id !in t - deleted <==> id in deleted * t.Keys;
  }

  /** The row an edit of `id` writes: the new texts with the token the table has, or the default one. */
  function EditToken(t: Table, id: string): string {
    if id in t then t[id].token else DEFAULT_TOKEN
  }

  /** A meme posted under a name is found by every term that occurs in the name. */
  lemma PostedNameFound(keys: seq<string>, values: seq<string>, encoded: seq<string>, term: string)
    requires Encoded(keys, values, encoded) && |keys| >= 3 && Distinct(keys)
    requires forall i :: 0 <= i < |values| ==> Clean(values[i])
    requires Holds(Submitted(keys, values, "name"), term)
    ensures var body := FormBody(keys, encoded);
            BodyDefined(body) && Like(SearchPattern(term), Field(ParseBody(body), "name"))
  {
    FormRoundTrip(keys, values, encoded);
    SearchCannotMiss(term, Submitted(keys, values, "name"));
  }

  class MemeHandler {
    var table: Table

    constructor ()
      ensures table == map[]
    {
      table := map[];
    }

    /** `SELECT MAX(MEME_ID)`: the row that no other exceeds in byte order. */
    method SelectMax() returns (id: string)
      requires table != map[]
      ensures id == MaxId(table.Keys)
    {
      var rest := table.Keys;
      id :| id in rest;
      LexTotal(id, id);
      rest := rest - {id};
      while rest != {}
        invariant rest <= table.Keys && id in table.Keys
        invariant forall k :: k in table.Keys - rest ==> LexLe(k, id)
        decreases rest
      {
        var k :| k in rest;
        LexTotal(k, id);
        ghost var before := id;
        var bigger := !LexLe(k, id);
        if bigger {
          id := k;
        }
        rest := rest - {k};
        forall j | j in table.Keys - rest ensures LexLe(j, id) {
          LexTotal(k, k);
          if j != k && bigger {
            LexTransitive(j, before, id);
          }
        }
      }
      assert IsMax(id, table.Keys);
      MaxUnique(id, table.Keys);
    }

    /** `AddToDatabase`: a new meme gets the next id and a token made for it; an edit writes under the id it
        names and keeps that row's token. One row is inserted or replaced, and no other changes. */
    method AddToDatabase(memeId: string, name: string, image: string, top: string, bottom: string,
                         newMeme: bool, draws: seq<nat>) returns (id: string)
      requires newMeme ==> Countable(table.Keys) && |draws| >= 2 * |NextId(table.Keys)|
      modifies this
      ensures newMeme ==> id == NextId(old(table.Keys)) &&
                          table == old(table)[id := Row(name, image, top, bottom,
                                                        id + "-" + Scramble(draws[..2 * |id|]))]
      ensures !newMeme ==> id == memeId &&
                           table == old(table)[id := Row(name, image, top, bottom,
                                                         if id in old(table) then old(table)[id].token else "00001")]
    {
      id := "10000";
      var atoken := "00001";
      if newMeme {
        if table != map[] {
          id := SelectMax();
          id := FromNat(ToNat(id) + 1);
        } else {
          assert table.Keys == {};
        }
        var scramble := GenAccessToken(|id|, draws);
        atoken := id + "-" + scramble;
      } else {
        id := memeId;
        if id in table {
          atoken := table[id].token;
        }
      }
      table := table[id := Row(name, image, top, bottom, atoken)];
    }

    /** The POST branch of `HandleRequest`: the form's fields go into one row, an edit only if the form says so. */
    method HandlePost(body: string, draws: seq<nat>) returns (id: string)
      requires BodyDefined(body)
      requires Field(ParseBody(body), "posttype") != "edit" ==>
                 Countable(table.Keys) && |draws| >= 2 * |NextId(table.Keys)|
      modifies this
      ensures var m := ParseBody(body);
              var isNew := Field(m, "posttype") != "edit";
              && id == (if isNew then NextId(old(table.Keys)) else Field(m, "meme_id"))
              && table == old(table)[id := Row(Field(m, "name"), Field(m, "image"), Field(m, "top"), Field(m, "bottom"),
                                               if isNew then id + "-" + Scramble(draws[..2 * |id|])
                                               else EditToken(old(table), id))]
    {
      var m := ParseRequestBody(body);
      var newMeme := true;
      if Field(m, "posttype") == "edit" {
        newMeme := false;
      }
      id := AddToDatabase(Field(m, "meme_id"), Field(m, "name"), Field(m, "image"), Field(m, "top"),
                          Field(m, "bottom"), newMeme, draws);
    }

    /** The table effect of `MemeDelete`: the row that the page names goes, its token with it, and no other. */
    method MemeDelete(page: string)
      requires DELETE_PAGE <= page && Digits(PageId(page))
      requires Numerals(table.Keys) || ToNat(PageId(page)) <= SQL_INT_MAX
      modifies this
      ensures var deleted := DeletedIds(PageId(page));
              && table == old(table) - deleted
              && (TableHolds(old(table)) ==>
                    && TableHolds(table)
                    && forall id :: id in old(table) ==>
                         (Authorized(table, old(table)[id].token) <==> id !in deleted))
    {
      PageIdStart(page);
      var index := Find(page, "id=").value;
      var memeId := Substr(page, index + 3, |page| - 1);
      if TableHolds(table) {
        DeleteRevokes(table, DeletedIds(memeId));
      }
      if memeId != "" && ToNat(memeId) <= SQL_INT_MAX {
        table := table - {FromNat(ToNat(memeId))};
      }
    }

    /** The delete branch of `HandleRequest`: only an authorized request deletes. */
    method HandleDelete(page: string, body: string) returns (isAuthorized: bool)
      requires DELETE_PAGE <= page && Digits(PageId(page)) && BodyDefined(body)
      requires Numerals(table.Keys) || ToNat(PageId(page)) <= SQL_INT_MAX
      modifies this
      ensures isAuthorized == Authorized(old(table), Field(ParseBody(body), "access-token"))
      ensures table == if isAuthorized then old(table) - DeletedIds(PageId(page)) else old(table)
      ensures TableHolds(old(table)) ==> TableHolds(table)
    {
      isAuthorized := VerifyTokenAuthentication(body);
      if isAuthorized {
        MemeDelete(page);
      }
    }

    /** `verifyTokenAuthentication`: splits the submitted token at its dashes and scans all rows. */
    method VerifyTokenAuthentication(body: string) returns (isAuthorized: bool)
      requires BodyDefined(body)
      ensures isAuthorized == Authorized(table, Field(ParseBody(body), "access-token"))
    {
      var memeMap := ParseRequestBody(body);
      var token := Field(memeMap, "access-token");
      if |token| > 0 && token == MASTER_TOKEN {
        return true;
      }
      isAuthorized := |token| > 0 && '-' in token;
      if isAuthorized {
        isAuthorized := false;
        var memeId := Split(token, {'-'})[0];
        var rest := table.Keys;
        while rest != {}
          invariant rest <= table.Keys
          invariant isAuthorized <==> exists id :: id in table.Keys - rest && table[id].token == token && id == memeId
          decreases rest
        {
          var id :| id in rest;
          if table[id].token == token && id == memeId {
            isAuthorized := true;
          }
          rest := rest - {id};
        }
      }
    }

    /** `SearchFromDatabase`: the rows one of whose texts matches the wrapped term, each once, in the order the
        sort parameter asks for; every row that holds a raw text with the raw term in it is among them. `scan` is
        the order in which the table is read. */
    method SearchFromDatabase(term: string, sort: string, scan: seq<string>) returns (found: seq<Hit>)
      requires Scans(scan, table)
      ensures sort == "a-z" ==> forall i, j :: 0 <= i < j < |found| ==> LexLe(found[i].row.name, found[j].row.name)
      ensures sort == "z-a" ==> forall i, j :: 0 <= i < j < |found| ==> LexLe(found[j].row.name, found[i].row.name)
      ensures sort == "id" ==> forall i, j :: 0 <= i < j < |found| ==> LexLe(found[i].id, found[j].id)
      ensures sort == "newest" ==> AgainstScan(found, scan)
      ensures sort !in {"a-z", "z-a", "id", "newest"} ==> AsScanned(found, scan)
      ensures forall i, j :: 0 <= i < j < |found| ==> found[i].id != found[j].id
      ensures var pattern := "%" + HtmlEncode(term) + "%";
              forall h :: h in found <==>
                && h.id in table && h.row == table[h.id]
                && (Like(pattern, h.row.name) || Like(pattern, h.row.top) || Like(pattern, h.row.bottom))
      ensures forall id, raw :: id in table && HoldsText(table[id], raw) && Holds(raw, term) ==>
                                  Hit(id, table[id]) in found
    {
      assert Hits(table, term, scan[..0]) == [];
      hide Hits, InOrder, Ordered, Reversed, AsScanned, AgainstScan, Enter, Like, HoldsText, Holds;
      var pattern := EncodeHtml(term);
      pattern := "%" + pattern + "%";
      found := [];
      AnyOrder(found, sort);
      for n := 0 to |scan|
        invariant multiset(found) == multiset(Hits(table, term, scan[..n]))
        invariant Ordered(found, sort)
        invariant !Sorts(sort) ==> found == Hits(table, term, scan[..n])
      {
        var row := table[scan[n]];
        HitsNext(table, term, scan, n);
        if Like(pattern, row.name) || Like(pattern, row.top) || Like(pattern, row.bottom) {
          EnterOrdered(found, Hit(scan[n], row), sort);
          found := Enter(found, Hit(scan[n], row), sort);
        }
      }
      assert scan[..|scan|] == scan;
      OrderMeans(found, sort);
      HitsInOrder(table, term, scan, |scan|);
      if sort == "newest" {
        ReversedSame(found);
        ReversedOrder(found, scan);
        found := Reversed(found);
      }
      HitsOnce(found, table, term, scan);
      forall id, raw | id in table && HoldsText(table[id], raw) && Holds(raw, term)
        ensures Hit(id, table[id]) in found
      {
        HeldMatches(table[id], raw, term);
      }
    }
  }
}
