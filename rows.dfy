/** Row classification and pair expansion (`make_dicts`): CSV rows whose tag
    contains "Teacher" are origins, rows whose tag contains "School" are
    destinations, and every origin is paired with every destination,
    teacher-major. */
module Rows {
  import opened Text

  /** A row as `csv.reader` yields it: field 0 is the tag, field 1 the display
      name, field 2 the address; further fields are ignored. */
  type Row = seq<string>

  /** The `[name, address]` list stored under 'Teacher' or 'Location'. */
  datatype Entity = Entity(name: string, address: string)

  /** The dictionary `{'Teacher': [name, address], 'Location': [name, address]}`. */
  datatype Record = Record(teacher: Entity, location: Entity)

  /** The comprehension's tuple `(x[1], x[2], y[1], y[2])`. */
  type Quad = (string, string, string, string)

  /** The exception `make_dicts` lets escape: indexing past the end of a row. */
  datatype Failure = IndexError

  datatype Result<T> = Ok(value: T) | Err(failure: Failure)

  const TeacherTag := "Teacher"
  const SchoolTag := "School"

  /** Every row has a field 0 to test (`row[0]` raises on an empty row, such as
      the one `csv.reader` yields for a blank line). */
  predicate TagsPresent(rows: seq<Row>) {
    forall row | row in rows :: |row| > 0
  }

  /** The rows whose tag contains `word`, in input order: the comprehensions
      `[row for row in rows if word in row[0]]`. */
  function Tagged(rows: seq<Row>, word: string): (r: seq<Row>)
    requires TagsPresent(rows)
    ensures |r| <= |rows|
    ensures forall x | x in r :: x in rows && Contains(x[0], word)
  {
    if rows == [] then []
    else
      (if Contains(rows[0][0], word) then [rows[0]] else []) + Tagged(rows[1..], word)
  }

  function Teachers(rows: seq<Row>): seq<Row>
    requires TagsPresent(rows)
  {
    Tagged(rows, TeacherTag)
  }

  function Locations(rows: seq<Row>): seq<Row>
    requires TagsPresent(rows)
  {
    Tagged(rows, SchoolTag)
  }

  /** The cross product never reads past a row's end: it reads fields 1 and 2
      of a teacher only when there is a location to pair it with, and
      conversely. */
  predicate Expandable(teachers: seq<Row>, locations: seq<Row>) {
    && (locations != [] ==> forall i :: 0 <= i < |teachers| ==> |teachers[i]| >= 3)
    && (teachers != [] ==> forall j :: 0 <= j < |locations| ==> |locations[j]| >= 3)
  }

  /** The pairs of one teacher row with every location row, in location order. */
  function PairsWith(x: Row, locations: seq<Row>): (r: seq<Quad>)
    requires locations != [] ==> |x| >= 3
    requires forall j :: 0 <= j < |locations| ==> |locations[j]| >= 3
    ensures |r| == |locations|
    ensures forall j :: 0 <= j < |r| ==> r[j] == (x[1], x[2], locations[j][1], locations[j][2])
  {
    if locations == [] then []
    else [(x[1], x[2], locations[0][1], locations[0][2])] + PairsWith(x, locations[1..])
  }

  /** `[(x[1], x[2], y[1], y[2]) for x in teachers for y in locations]`. */
  function Pairs(teachers: seq<Row>, locations: seq<Row>): (r: seq<Quad>)
    requires Expandable(teachers, locations)
    ensures |r| == Block(|teachers|, |locations|)
  {
    if teachers == [] then []
    else PairsWith(teachers[0], locations) + Pairs(teachers[1..], locations)
  }

  /** `i * n`, spelled as repeated addition so that the proofs about the
      teacher-major layout stay linear. */
  function Block(i: nat, n: nat): nat {
    if i == 0 then 0 else n + Block(i - 1, n)
  }

  lemma {:induction false} BlockIsProduct(i: nat, n: nat)
    ensures Block(i, n) == i * n
  {
    if i > 0 {
      BlockIsProduct(i - 1, n);
    }
  }

  /** Pair `k = i * |locations| + j` joins teacher `i` with location `j`. */
  lemma {:induction false} PairsAt(teachers: seq<Row>, locations: seq<Row>, i: nat, j: nat)
    requires Expandable(teachers, locations)
    requires i < |teachers| && j < |locations|
    ensures Block(i, |locations|) + j < |Pairs(teachers, locations)|
    ensures Pairs(teachers, locations)[Block(i, |locations|) + j] ==
      (teachers[i][1], teachers[i][2], locations[j][1], locations[j][2])
    decreases i
  {
    var n := |locations|;
    var head := PairsWith(teachers[0], locations);
    var rest := Pairs(teachers[1..], locations);
    assert Pairs(teachers, locations) == head + rest;
    if i == 0 {
      assert (head + rest)[j] == head[j];
    } else {
      assert Expandable(teachers[1..], locations);
      PairsAt(teachers[1..], locations, i - 1, j);
      assert (head + rest)[n + (Block(i - 1, n) + j)] == rest[Block(i - 1, n) + j];
    }
  }

  /** The record `make_dicts` builds from one tuple. */
  function RecordOf(q: Quad): Record {
    Record(Entity(q.0, q.1), Entity(q.2, q.3))
  }

  /** `records` is the teacher-major cross product: one record per pair, the
      record at `Block(i, |locations|) + j` (that is, `i * |locations| + j`,
      by `BlockIsProduct`) joining teacher `i` with location `j`. */
  predicate TeacherMajor(records: seq<Record>, teachers: seq<Row>, locations: seq<Row>)
    requires Expandable(teachers, locations)
  {
    && |records| == Block(|teachers|, |locations|)
    && forall i, j | 0 <= i < |teachers| && 0 <= j < |locations| ::
      Block(i, |locations|) + j < |records| &&
      records[Block(i, |locations|) + j] ==
        Record(Entity(teachers[i][1], teachers[i][2]), Entity(locations[j][1], locations[j][2]))
  }

  /** Records built tuple by tuple from the cross product sit teacher-major. */
  lemma RecordsTeacherMajor(teachers: seq<Row>, locations: seq<Row>, records: seq<Record>)
    requires Expandable(teachers, locations)
    requires |records| == |Pairs(teachers, locations)|
    requires forall m :: 0 <= m < |records| ==> records[m] == RecordOf(Pairs(teachers, locations)[m])
    ensures TeacherMajor(records, teachers, locations)
  {
    forall i, j | 0 <= i < |teachers| && 0 <= j < |locations|
      ensures Block(i, |locations|) + j < |records|
      ensures records[Block(i, |locations|) + j] ==
        Record(Entity(teachers[i][1], teachers[i][2]), Entity(locations[j][1], locations[j][2]))
    {
      var k := Block(i, |locations|) + j;
      PairsAt(teachers, locations, i, j);
      assert records[k] == RecordOf(Pairs(teachers, locations)[k]);
    }
  }

  /** `make_dicts`: classify the rows, build the cross product, and turn each
      tuple into a record, appending in order. It fails exactly when Python's
      `row[0]`, `x[1]`, `x[2]`, `y[1]` or `y[2]` would raise `IndexError`. */
  method MakeDicts(rows: seq<Row>) returns (result: Result<seq<Record>>)
    ensures result.Err? <==> !TagsPresent(rows) || !Expandable(Teachers(rows), Locations(rows))
    ensures result.Ok? ==> TeacherMajor(result.value, Teachers(rows), Locations(rows))
  {
    if !TagsPresent(rows) {
      return Err(IndexError);
    }
    var teachers := Teachers(rows);
    var locations := Locations(rows);
    if !Expandable(teachers, locations) {
      return Err(IndexError);
    }
    var pairs := Pairs(teachers, locations);
    var dictList: seq<Record> := [];
    var k := 0;
    while k < |pairs|
      invariant 0 <= k <= |pairs|
      invariant |dictList| == k
      invariant forall m :: 0 <= m < k ==> dictList[m] == RecordOf(pairs[m])
    {
      var pair := pairs[k];
      var teacher := Entity(pair.0, pair.1);
      var location := Entity(pair.2, pair.3);
      dictList := dictList + [Record(teacher, location)];
      k := k + 1;
    }
    RecordsTeacherMajor(teachers, locations, dictList);
    return Ok(dictList);
  }

  /** Classifying a concatenation classifies each part. */
  lemma {:induction false} TaggedAppend(a: seq<Row>, b: seq<Row>, word: string)
    requires TagsPresent(a) && TagsPresent(b)
    ensures TagsPresent(a + b)
    ensures Tagged(a + b, word) == Tagged(a, word) + Tagged(b, word)
    decreases |a|
  {
    assert TagsPresent(a + b);
    if a != [] {
      assert (a + b)[1..] == a[1..] + b;
      assert TagsPresent(a[1..]);
      TaggedAppend(a[1..], b, word);
    } else {
      assert a + b == b;
    }
  }

  /** No deduplication: when every row carries the tag, all rows are kept,
      repeated rows included, in their order. */
  lemma {:induction false} TaggedKeepsAll(rows: seq<Row>, word: string)
    requires TagsPresent(rows)
    requires forall i :: 0 <= i < |rows| ==> Contains(rows[i][0], word)
    ensures Tagged(rows, word) == rows
  {
    if rows != [] {
      assert TagsPresent(rows[1..]);
      TaggedKeepsAll(rows[1..], word);
      assert rows == [rows[0]] + rows[1..];
    }
  }

  /** Removing a row whose tag lacks `word` does not change `Tagged`. */
  lemma TaggedSkipsUntagged(rows: seq<Row>, k: nat, word: string)
    requires TagsPresent(rows) && k < |rows|
    requires !Contains(rows[k][0], word)
    ensures TagsPresent(rows[..k] + rows[k + 1..])
    ensures Tagged(rows[..k] + rows[k + 1..], word) == Tagged(rows, word)
  {
    var a, b := rows[..k], rows[k + 1..];
    var mid := [rows[k]] + b;
    assert rows == a + mid;
    assert Tagged(mid, word) == Tagged(b, word) by {
      assert mid[1..] == b;
    }
    TaggedAppend(a, mid, word);
    TaggedAppend(a, b, word);
  }

  /** A row whose tag contains neither word contributes nothing: removing it
      leaves both the teachers and the locations, hence the output, unchanged. */
  lemma UntaggedRowDropped(rows: seq<Row>, k: nat)
    requires TagsPresent(rows) && k < |rows|
    requires !Contains(rows[k][0], TeacherTag) && !Contains(rows[k][0], SchoolTag)
    ensures TagsPresent(rows[..k] + rows[k + 1..])
    ensures Teachers(rows[..k] + rows[k + 1..]) == Teachers(rows)
    ensures Locations(rows[..k] + rows[k + 1..]) == Locations(rows)
  {
    TaggedSkipsUntagged(rows, k, TeacherTag);
    TaggedSkipsUntagged(rows, k, SchoolTag);
  }

  /** Every row whose tag contains `word` is kept. */
  lemma {:induction false} TaggedKeeps(rows: seq<Row>, k: nat, word: string)
    requires TagsPresent(rows) && k < |rows|
    requires Contains(rows[k][0], word)
    ensures rows[k] in Tagged(rows, word)
    decreases k
  {
    if k > 0 {
      TaggedKeeps(rows[1..], k - 1, word);
    }
  }

  /** A row whose tag contains both words is a teacher and a location. */
  lemma DoublyTaggedRowUsedTwice(rows: seq<Row>, k: nat)
    requires TagsPresent(rows) && k < |rows|
    requires Contains(rows[k][0], TeacherTag) && Contains(rows[k][0], SchoolTag)
    ensures rows[k] in Teachers(rows) && rows[k] in Locations(rows)
  {
    TaggedKeeps(rows, k, TeacherTag);
    TaggedKeeps(rows, k, SchoolTag);
  }
}
