/** The backing image table and the SQL statements the core issues against
    it, as functions of the table's contents.  The table is listed in
    primary-key order; `id` is an autoincrement integer key, `filename` and
    `url` are unique, and `nhash` (the fingerprint as hexadecimal text) may
    be NULL. */
module Records {
  import opened Wrappers

  datatype Row = Row(
    id: int,
    url: string,
    filename: string,
    nhash: Option<string>,
    groupId: Option<string>,
    userId: string,
    time: int,
    count: int)

  type Table = seq<Row>

  datatype DbError = UniqueViolation

  /** The listing is in ascending id order, ids being distinct. */
  predicate Sorted(t: Table) {
    forall i, j :: 0 <= i < j < |t| ==> t[i].id < t[j].id
  }

  /** What the schema guarantees of every state of the table. */
  predicate WellFormed(t: Table) {
    && Sorted(t)
    && (forall i :: 0 <= i < |t| ==> t[i].id > 0)
    && (forall i, j :: 0 <= i < j < |t| ==> t[i].filename != t[j].filename && t[i].url != t[j].url)
  }

  /** SELECT ... WHERE nhash IS NOT NULL AND id > lastId ORDER BY id ASC. */
  function Eligible(t: Table, lastId: int): (r: Table)
    ensures |r| <= |t|
    ensures forall i :: 0 <= i < |r| ==> r[i].nhash.Some? && r[i].id > lastId
    decreases |t|
  {
    if |t| == 0 then []
    else
      (if t[0].nhash.Some? && t[0].id > lastId then [t[0]] else []) + Eligible(t[1..], lastId)
  }

  /** The same query with LIMIT limit. */
  function Page(t: Table, lastId: int, limit: nat): (p: Table)
    ensures |p| <= limit && |p| <= |Eligible(t, lastId)|
    ensures p == Eligible(t, lastId)[..|p|]
    ensures |p| < limit ==> p == Eligible(t, lastId)
  {
    var e := Eligible(t, lastId);
    if |e| <= limit then e else e[..limit]
  }

  /** The query returns exactly the rows that have a hash and an id above
      the bound. */
  lemma {:induction false} EligibleMembers(t: Table, lastId: int)
    ensures forall row :: row in Eligible(t, lastId) <==> row in t && row.nhash.Some? && row.id > lastId
    decreases |t|
  {
    if |t| > 0 {
      EligibleMembers(t[1..], lastId);
      assert t == [t[0]] + t[1..];
    }
  }

  /** The eligible rows of a sorted listing are again sorted. */
  lemma {:induction false} EligibleSorted(t: Table, lastId: int)
    requires Sorted(t)
    ensures Sorted(Eligible(t, lastId))
    decreases |t|
  {
    if |t| > 0 {
      var tail := t[1..];
      EligibleSorted(tail, lastId);
      EligibleMembers(tail, lastId);
      var r := Eligible(t, lastId);
      var rest := Eligible(tail, lastId);
      forall j | 0 <= j < |rest| ensures t[0].id < rest[j].id {
        assert rest[j] in tail;
      }
    }
  }

  lemma {:induction false} EligibleConcat(a: Table, b: Table, lastId: int)
    ensures Eligible(a + b, lastId) == Eligible(a, lastId) + Eligible(b, lastId)
    decreases |a|
  {
    if |a| == 0 {
      assert a + b == b;
    } else {
      assert (a + b)[1..] == a[1..] + b;
      EligibleConcat(a[1..], b, lastId);
    }
  }

  /** Rows that all pass the filter are kept as they are. */
  lemma {:induction false} EligibleKeepsAll(s: Table, lastId: int)
    requires forall i :: 0 <= i < |s| ==> s[i].nhash.Some? && s[i].id > lastId
    ensures Eligible(s, lastId) == s
    decreases |s|
  {
    if |s| > 0 {
      EligibleKeepsAll(s[1..], lastId);
    }
  }

  /** Filtering a sorted run of eligible rows by the id of its k-th row
      leaves exactly the rows after it. */
  lemma {:induction false} EligibleAfter(s: Table, k: nat)
    requires Sorted(s) && 0 < k <= |s|
    requires forall i :: 0 <= i < |s| ==> s[i].nhash.Some?
    ensures Eligible(s, s[k - 1].id) == s[k..]
    decreases |s|
  {
    var tail := s[1..];
    if k == 1 {
      EligibleKeepsAll(tail, s[0].id);
    } else {
      EligibleAfter(tail, k - 1);
      assert tail[k - 2] == s[k - 1];
      assert tail[k - 1..] == s[k..];
    }
  }

  /** Filtering twice by increasing bounds is filtering by the larger one. */
  lemma {:induction false} EligibleTwice(t: Table, a: int, b: int)
    requires a <= b
    ensures Eligible(Eligible(t, a), b) == Eligible(t, b)
    decreases |t|
  {
    if |t| > 0 {
      EligibleTwice(t[1..], a, b);
      var head := if t[0].nhash.Some? && t[0].id > a then [t[0]] else [];
      EligibleConcat(head, Eligible(t[1..], a), b);
    }
  }

  /** After a non-empty page, querying again from the id of its last row
      skips exactly the rows of that page; the ids move strictly upwards. */
  lemma NextPage(t: Table, lastId: int, limit: nat)
    requires Sorted(t)
    requires |Page(t, lastId, limit)| > 0
    ensures var p := Page(t, lastId, limit);
            && p[|p| - 1].id > lastId
            && Eligible(t, p[|p| - 1].id) == Eligible(t, lastId)[|p|..]
            && |Eligible(t, p[|p| - 1].id)| < |Eligible(t, lastId)|
            && Eligible(t, lastId) == p + Eligible(t, p[|p| - 1].id)
  {
    var p := Page(t, lastId, limit);
    var e := Eligible(t, lastId);
    var next := p[|p| - 1].id;
    EligibleSorted(t, lastId);
    assert p[|p| - 1] == e[|p| - 1];
    EligibleAfter(e, |p|);
    EligibleTwice(t, lastId, next);
    assert e == e[..|p|] + e[|p|..];
  }

  /** SELECT * WHERE filename = f, as fetch_one: the position of the first
      row with that file name. */
  function FindByFilename(t: Table, f: string): (r: Option<nat>)
    ensures r.Some? ==> r.value < |t| && t[r.value].filename == f &&
                        forall j :: 0 <= j < r.value ==> t[j].filename != f
    ensures r.None? ==> forall j :: 0 <= j < |t| ==> t[j].filename != f
    decreases |t|
  {
    if |t| == 0 then None
    else if t[0].filename == f then Some(0)
    else
      match FindByFilename(t[1..], f)
      case None => None
      case Some(i) => Some(i + 1)
  }

  /** UPDATE ... SET count = c WHERE filename = f. */
  function UpdateCount(t: Table, f: string, c: int): Table {
    seq(|t|, i requires 0 <= i < |t| => if t[i].filename == f then t[i].(count := c) else t[i])
  }

  /** The key the autoincrement column gives a new row, taken here as one
      more than the largest key, 1 in an empty table. */
  function NextId(t: Table): int {
    if |t| == 0 then 1 else t[|t| - 1].id + 1
  }

  /** INSERT of one row; the row's id is replaced by the assigned key.  The
      unique constraints on filename and url reject a duplicate. */
  function Insert(t: Table, row: Row): Result<Table, DbError> {
    if exists i :: 0 <= i < |t| && (t[i].filename == row.filename || t[i].url == row.url)
    then Failure(UniqueViolation)
    else Success(t + [row.(id := NextId(t))])
  }

  /** An insert that succeeds keeps the schema's guarantees. */
  lemma InsertKeepsWellFormed(t: Table, row: Row)
    requires WellFormed(t) && Insert(t, row).Success?
    ensures WellFormed(Insert(t, row).value)
    ensures Insert(t, row).value[|t|].id == NextId(t) > 0
  {
    var r := Insert(t, row).value;
    if |t| > 0 {
      assert forall i :: 0 <= i < |t| ==> t[i].id <= t[|t| - 1].id;
    }
  }

  /** The update changes only the count of the rows that carry the name. */
  lemma UpdateKeepsWellFormed(t: Table, f: string, c: int)
    requires WellFormed(t)
    ensures WellFormed(UpdateCount(t, f, c))
  {
  }
}
