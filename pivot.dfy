/** The table built by `write_duration_csv`: one row per distinct teacher
    name, one column per distinct location name, each cell the text of the
    duration of the last record for that pair, or empty when there is none. */
module Pivot {
  import opened Text
  import opened Rows
  import opened Durations

  /** One downloaded result: the record `make_dicts` produced, with the
      `arrive_time` and `duration` the route page gave for it. */
  datatype Page = Page(teacher: Entity, location: Entity, arriveTime: string, duration: Option<int>)

  /** The first header cell. */
  const HeaderTag := "Teacher"

  /** `str(d['duration'])`: "None" for a missing duration, the text of the
      `timedelta` otherwise. */
  function CellText(duration: Option<int>): string {
    match duration
    case None => "None"
    case Some(minutes) => Render(minutes)
  }

  /** Reads a cell back: `Some(None)` for "None", `Some(Some(m))` for the text
      of `m` minutes, `None` for anything else. */
  function ReadCell(text: string): Option<Option<int>> {
    if text == "None" then Some(None)
    else match ReadRendered(text)
      case Some(minutes) => Some(Some(minutes))
      case None => None
  }

  /** "None" is not the text of any duration. */
  lemma NoneIsNotRendered()
    ensures ReadRendered("None") == None
  {
    assert ',' !in "None" && ':' !in "None";
    IndexOfSkip("None", [], ",");
    assert "None" + [] == "None";
    SplitWhole("None", ':');
  }

  /** The text of a cell gives its duration back, so a cell tells a missing
      duration, and every duration, apart from every other. */
  lemma ReadCellText(duration: Option<int>)
    ensures ReadCell(CellText(duration)) == Some(duration)
  {
    match duration
    case None =>
    case Some(minutes) =>
      ReadRenderedRoundTrip(minutes);
      NoneIsNotRendered();
  }

  /** No record ever writes an empty cell: a missing duration writes "None". */
  lemma CellTextNotBlank(duration: Option<int>)
    ensures CellText(duration) != ""
  {
    ReadCellText(duration);
    assert ReadCell("") == None by {
      SplitWhole("", ':');
      assert !Contains("", ",");
    }
  }

  // ---------------------------------------------------------------------
  // The table the loop computes
  // ---------------------------------------------------------------------

  function TeacherNames(data: seq<Page>): set<string> {
    set d | d in data :: d.teacher.name
  }

  function LocationNames(data: seq<Page>): set<string> {
    set d | d in data :: d.location.name
  }

  /** `order` lists every name of `names` exactly once: what
      `list(set(...))` gives, in an order Python leaves open. */
  ghost predicate IsOrderOf(order: seq<string>, names: set<string>) {
    && (forall i, j :: 0 <= i < j < |order| ==> order[i] != order[j])
    && (forall x :: x in order <==> x in names)
  }

  /** The cell for teacher `t` and location `l` once every record of `data`
      has been written in order: the text of the last record for the pair, or
      the initial '' when there is none. */
  function LastCell(data: seq<Page>, t: string, l: string): string {
    if data == [] then ""
    else
      var d := data[|data| - 1];
      if d.teacher.name == t && d.location.name == l then CellText(d.duration)
      else LastCell(data[..|data| - 1], t, l)
  }

  /** A cell stays empty exactly when no record names its pair. */
  lemma {:induction false} LastCellBlank(data: seq<Page>, t: string, l: string)
    ensures LastCell(data, t, l) == "" <==>
      forall k :: 0 <= k < |data| ==> !(data[k].teacher.name == t && data[k].location.name == l)
  {
    if data != [] {
      var d := data[|data| - 1];
      var init := data[..|data| - 1];
      LastCellBlank(init, t, l);
      CellTextNotBlank(d.duration);
      assert forall k :: 0 <= k < |init| ==> init[k] == data[k];
    }
  }

  /** The last record for a pair decides its cell: earlier records for the
      same pair are overwritten, records for other pairs do not touch it. */
  lemma {:induction false} LastCellIsLast(data: seq<Page>, t: string, l: string, k: nat)
    requires k < |data| && data[k].teacher.name == t && data[k].location.name == l
    requires forall k' :: k < k' < |data| ==> !(data[k'].teacher.name == t && data[k'].location.name == l)
    ensures LastCell(data, t, l) == CellText(data[k].duration)
    decreases |data|
  {
    var init := data[..|data| - 1];
    if k < |data| - 1 {
      assert forall k' :: k < k' < |init| ==> init[k'] == data[k'];
      LastCellIsLast(init, t, l, k);
    }
  }

  /** Writing one more record changes only the cell of its own pair. */
  lemma LastCellStep(data: seq<Page>, k: nat, t: string, l: string)
    requires k < |data|
    ensures LastCell(data[..k + 1], t, l) ==
      if data[k].teacher.name == t && data[k].location.name == l then CellText(data[k].duration)
      else LastCell(data[..k], t, l)
  {
    assert data[..k + 1][..k] == data[..k];
  }

  /** The nested dictionary holds, for every listed pair, the cell `LastCell`
      gives for the records written so far. */
  predicate Filled(durations: map<string, map<string, string>>, teachers: seq<string>, locations: seq<string>, written: seq<Page>) {
    forall t | t in teachers ::
      t in durations && forall l | l in locations :: l in durations[t] && durations[t][l] == LastCell(written, t, l)
  }

  /** The first loop of `write_duration_csv`: start every listed cell at ''
      and write each record's duration text into its pair's cell, in order. */
  method FillDurations(data: seq<Page>, teachers: seq<string>, locations: seq<string>)
    returns (durations: map<string, map<string, string>>)
    requires forall k :: 0 <= k < |data| ==> data[k].teacher.name in teachers && data[k].location.name in locations
    ensures Filled(durations, teachers, locations, data)
  {
    durations := map t | t in teachers :: map l | l in locations :: "";
    var k := 0;
    while k < |data|
      invariant 0 <= k <= |data|
      invariant Filled(durations, teachers, locations, data[..k])
    {
      var d := data[k];
      var teacher := d.teacher.name;
      var location := d.location.name;
      var duration := CellText(d.duration);
      var next := durations[teacher := durations[teacher][location := duration]];
      forall t, l | t in teachers && l in locations
        ensures t in next && l in next[t] && next[t][l] == LastCell(data[..k + 1], t, l)
      {
        LastCellStep(data, k, t, l);
      }
      durations := next;
      k := k + 1;
    }
    assert data[..k] == data;
  }

  /** Every record's names are among the listed orders. */
  lemma OrdersCoverData(data: seq<Page>, teachers: seq<string>, locations: seq<string>)
    requires IsOrderOf(teachers, TeacherNames(data))
    requires IsOrderOf(locations, LocationNames(data))
    ensures forall k :: 0 <= k < |data| ==> data[k].teacher.name in teachers && data[k].location.name in locations
  {
    forall k | 0 <= k < |data|
      ensures data[k].teacher.name in teachers && data[k].location.name in locations
    {
      assert data[k] in data;
    }
  }

  /** The second loop of `write_duration_csv`: one row per teacher, the
      teacher's name followed by its cell for each location in order. */
  method BuildRows(durations: map<string, map<string, string>>, teachers: seq<string>, locations: seq<string>)
    returns (rows: seq<seq<string>>)
    requires forall t | t in teachers :: t in durations && forall l | l in locations :: l in durations[t]
    ensures |rows| == |teachers|
    ensures forall i :: 0 <= i < |rows| ==> |rows[i]| == 1 + |locations| && rows[i][0] == teachers[i]
    ensures forall i, j :: 0 <= i < |rows| && 0 <= j < |locations| ==>
      rows[i][j + 1] == durations[teachers[i]][locations[j]]
  {
    rows := [];
    var i := 0;
    while i < |teachers|
      invariant 0 <= i <= |teachers|
      invariant |rows| == i
      invariant forall i' :: 0 <= i' < i ==> |rows[i']| == 1 + |locations| && rows[i'][0] == teachers[i']
      invariant forall i', j :: 0 <= i' < i && 0 <= j < |locations| ==>
        rows[i'][j + 1] == durations[teachers[i']][locations[j]]
    {
      var teacher := teachers[i];
      var cells := seq(|locations|, j requires 0 <= j < |locations| => durations[teacher][locations[j]]);
      rows := rows + [[teacher] + cells];
      i := i + 1;
    }
  }

  /** `write_duration_csv` without the file: the header row and the teacher
      rows it writes, for the row and column orders `list(set(...))` chose.
      Every record's names are among those orders, so no lookup can miss. */
  method WriteDurationTable(data: seq<Page>, teachers: seq<string>, locations: seq<string>)
    returns (header: seq<string>, rows: seq<seq<string>>)
    requires IsOrderOf(teachers, TeacherNames(data))
    requires IsOrderOf(locations, LocationNames(data))
    ensures header == [HeaderTag] + locations
    ensures |rows| == |teachers|
    ensures forall i :: 0 <= i < |rows| ==> |rows[i]| == 1 + |locations| && rows[i][0] == teachers[i]
    ensures forall i, j :: 0 <= i < |rows| && 0 <= j < |locations| ==>
      rows[i][j + 1] == LastCell(data, teachers[i], locations[j])
  {
    header := [HeaderTag] + locations;
    OrdersCoverData(data, teachers, locations);
    var durations := FillDurations(data, teachers, locations);
    rows := BuildRows(durations, teachers, locations);
    forall i, j | 0 <= i < |rows| && 0 <= j < |locations|
      ensures rows[i][j + 1] == LastCell(data, teachers[i], locations[j])
    {
      assert teachers[i] in teachers && locations[j] in locations;
    }
  }

  /** With the orders fixed, one row per distinct teacher name and one column
      per distinct location name. */
  lemma {:induction false} OrderCoversNames(order: seq<string>, names: set<string>)
    requires IsOrderOf(order, names)
    ensures |order| == |names|
    decreases |order|
  {
    if order != [] {
      var last := order[|order| - 1];
      var init := order[..|order| - 1];
      assert forall x :: x in init <==> x in names - {last} by {
        forall x
          ensures x in init <==> x in names - {last}
        {
          if x in init {
            var i :| 0 <= i < |init| && init[i] == x;
            assert order[i] != order[|order| - 1];
          }
          if x in names - {last} {
            var i :| 0 <= i < |order| && order[i] == x;
            assert i != |order| - 1;
            assert init[i] == x;
          }
        }
      }
      OrderCoversNames(init, names - {last});
    } else {
      assert forall x :: x !in names;
      assert names == {};
    }
  }
}
