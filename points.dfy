/** The daily points of each student (src/services/pointService.js). A row is keyed by the
    student and the KST date of the call, is created lazily with 0 of 20 points, and is only ever
    written clamped to [0, 20]. Every database call is a boolean outcome parameter: `true` when
    the database answered, `false` when it raised an error. */
module Points {
  import opened Wrappers
  import opened Database
  import Time

  const PointsError := "포인트 처리 실패"

  /** The row every student starts the day with. */
  const FreshRow := PointsRow(0, MaxDailyPoints)

  /** The key of a student's row on the KST day of `now`. */
  function Key(studentId: string, now: int): (string, string) {
    (studentId, Time.GetTodayKST(now))
  }

  /** `Math.max(0, Math.min(20, points))`. */
  function Clamp(points: int): (r: int)
    ensures 0 <= r <= MaxDailyPoints
    ensures 0 <= points <= MaxDailyPoints ==> r == points
    ensures points < 0 ==> r == 0
    ensures points > MaxDailyPoints ==> r == MaxDailyPoints
  {
    if points < 0 then 0 else if points > MaxDailyPoints then MaxDailyPoints else points
  }

  /** What incrementPoints hands to updateDailyPoints and what is then stored:
      `Math.min(current + amount, 20)`, clamped once more by the update. */
  function Incremented(current: int, amount: int): (r: int)
    ensures 0 <= r <= MaxDailyPoints
    ensures 0 <= current + amount <= MaxDailyPoints ==> r == current + amount
    ensures current + amount >= MaxDailyPoints ==> r == MaxDailyPoints
  {
    var newPoints := if current + amount < MaxDailyPoints then current + amount else MaxDailyPoints;
    Clamp(newPoints)
  }

  /** The points after `n` successive one-point increments, as completeHelp applies them. */
  function IncrementedOnes(current: int, n: nat): (r: int)
    ensures n > 0 ==> 0 <= r <= MaxDailyPoints
  {
    if n == 0 then current else Incremented(IncrementedOnes(current, n - 1), 1)
  }

  /** From any valid count, one-point increments add one each until the count reaches 20 and
      then leave it at 20: 19 + 1 gives 20 and 20 + 1 stays 20. */
  lemma {:induction false} IncrementCaps(current: int, n: nat)
    requires 0 <= current <= MaxDailyPoints
    ensures IncrementedOnes(current, n) == if current + n <= MaxDailyPoints then current + n else MaxDailyPoints
  {
    if n > 0 {
      IncrementCaps(current, n - 1);
    }
  }

  /** createDailyPoints: inserts the fresh row; when the row already exists (the unique-key
      conflict) the existing row is fetched and returned unchanged. `insertOk` is whether the
      insert reached the database, `fetchOk` whether the follow-up fetch did. */
  method CreateDailyPoints(t: DailyPointsTable, studentId: string, now: int, insertOk: bool, fetchOk: bool)
    returns (r: Result<PointsRow, string>)
    requires t.Valid()
    modifies t
    ensures t.Valid()
    ensures var key := Key(studentId, now);
      && (key in old(t.rows) ==> t.rows == old(t.rows) && (r.Ok? <==> insertOk && fetchOk))
      && (key !in old(t.rows) ==> (r.Ok? <==> insertOk))
      && (key !in old(t.rows) && insertOk ==> t.rows == old(t.rows)[key := FreshRow])
      && (r.Ok? ==> key in t.rows && r.value == t.rows[key])
      && (r.Err? ==> t.rows == old(t.rows))
  {
    var key := Key(studentId, now);
    if !insertOk {
      return Err(PointsError);
    }
    if key in t.rows {
      if !fetchOk {
        return Err(PointsError);
      }
      return Ok(t.rows[key]);
    }
    t.rows := t.rows[key := FreshRow];
    r := Ok(FreshRow);
  }

  /** getDailyPoints: today's row, created by createDailyPoints when there is none. */
  method GetDailyPoints(t: DailyPointsTable, studentId: string, now: int, selectOk: bool, insertOk: bool, fetchOk: bool)
    returns (r: Result<PointsRow, string>)
    requires t.Valid()
    modifies t
    ensures t.Valid()
    ensures var key := Key(studentId, now);
      && (key in old(t.rows) ==> t.rows == old(t.rows) && (r.Ok? <==> selectOk) && (r.Ok? ==> r.value == old(t.rows)[key]))
      && (key !in old(t.rows) ==> (r.Ok? <==> selectOk && insertOk))
      && (r.Ok? && key !in old(t.rows) ==> r.value == FreshRow && t.rows == old(t.rows)[key := FreshRow])
      && (r.Ok? ==> key in t.rows && r.value == t.rows[key])
      && (r.Err? ==> t.rows == old(t.rows))
  {
    var key := Key(studentId, now);
    if !selectOk {
      return Err(PointsError);
    }
    if key in t.rows {
      return Ok(t.rows[key]);
    }
    r := CreateDailyPoints(t, studentId, now, insertOk, fetchOk);
  }

  /** updateDailyPoints: stores the clamped value in today's row. When there is no row the row is
      created and the update is issued once more; after a successful create the row exists, so
      that second update is the last. `retryOk` is the outcome of the second update. */
  method UpdateDailyPoints(t: DailyPointsTable, studentId: string, points: int, now: int,
                           updateOk: bool, insertOk: bool, fetchOk: bool, retryOk: bool)
    returns (r: Result<PointsRow, string>)
    requires t.Valid()
    modifies t
    ensures t.Valid()
    ensures var key := Key(studentId, now);
      && (r.Ok? <==> updateOk && (key in old(t.rows) || (insertOk && retryOk)))
      && (r.Ok? ==> r == Ok(PointsRow(Clamp(points), MaxDailyPoints))
                    && t.rows == old(t.rows)[key := PointsRow(Clamp(points), MaxDailyPoints)])
      && (r.Err? ==> t.rows == old(t.rows) || (key !in old(t.rows) && t.rows == old(t.rows)[key := FreshRow]))
  {
    var key := Key(studentId, now);
    var validPoints := Clamp(points);
    if !updateOk {
      return Err(PointsError);
    }
    if key !in t.rows {
      var created := CreateDailyPoints(t, studentId, now, insertOk, fetchOk);
      if created.Err? {
        return Err(PointsError);
      }
      if !retryOk {
        return Err(PointsError);
      }
    }
    var row := t.rows[key].(currentPoints := validPoints);
    t.rows := t.rows[key := row];
    r := Ok(row);
  }

  /** incrementPoints: reads today's points (creating the row if needed) and stores
      `min(current + amount, 20)`, clamped. A failed read changes nothing and stores nothing. */
  method IncrementPoints(t: DailyPointsTable, studentId: string, amount: int, now: int,
                         selectOk: bool, insertOk: bool, fetchOk: bool, updateOk: bool)
    returns (r: Result<PointsRow, string>)
    requires t.Valid()
    modifies t
    ensures t.Valid()
    ensures var key := Key(studentId, now);
      var current := if key in old(t.rows) then old(t.rows)[key].currentPoints else 0;
      && (r.Ok? <==> selectOk && (key in old(t.rows) || insertOk) && updateOk)
      && (r.Ok? ==> r == Ok(PointsRow(Incremented(current, amount), MaxDailyPoints))
                    && t.rows == old(t.rows)[key := PointsRow(Incremented(current, amount), MaxDailyPoints)])
      && (r.Err? ==> t.rows == old(t.rows) || (key !in old(t.rows) && t.rows == old(t.rows)[key := FreshRow]))
  {
    var key := Key(studentId, now);
    var currentPoints := GetDailyPoints(t, studentId, now, selectOk, insertOk, fetchOk);
    if currentPoints.Err? {
      return Err(currentPoints.error);
    }
    var newPoints := if currentPoints.value.currentPoints + amount < MaxDailyPoints
                     then currentPoints.value.currentPoints + amount else MaxDailyPoints;
    // The row exists now, so the update reaches it without creating it again.
    r := UpdateDailyPoints(t, studentId, newPoints, now, updateOk, insertOk, fetchOk, true);
  }

  /** One row of the class summary procedure; either field may be null. */
  datatype SummaryRow = SummaryRow(currentPoints: Option<int>, goalPoints: Option<int>)

  datatype ClassPoints = ClassPoints(currentPoints: int, goalPoints: int)

  /** `x || fallback` on a nullable number: null and 0 give the fallback. */
  function OrDefault(x: Option<int>, fallback: int): (r: int)
    ensures x.Some? && x.value != 0 ==> r == x.value
    ensures x.None? || x.value == 0 ==> r == fallback
  {
    match x
    case Some(v) => if v != 0 then v else fallback
    case None => fallback
  }

  /** getTodaysClassPoints: the procedure's first row with 0 and 100 standing in for missing
      fields; an error or an empty answer gives {0, 100}. The procedure's answer is an input. */
  function GetTodaysClassPoints(rpc: Result<seq<SummaryRow>, string>): (r: ClassPoints)
    ensures rpc.Err? || rpc.value == [] ==> r == ClassPoints(0, 100)
    ensures rpc.Ok? && rpc.value != [] ==> r.currentPoints == rpc.value[0].currentPoints.GetOr(0)
    ensures r.goalPoints != 0
    ensures rpc.Ok? && rpc.value != [] && rpc.value[0].goalPoints.Some? && rpc.value[0].goalPoints.value != 0
            ==> r.goalPoints == rpc.value[0].goalPoints.value
  {
    match rpc
    case Err(_) => ClassPoints(0, 100)
    case Ok(data) =>
      if data == [] then ClassPoints(0, 100)
      else ClassPoints(OrDefault(data[0].currentPoints, 0), OrDefault(data[0].goalPoints, 100))
  }
}
