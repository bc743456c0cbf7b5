/**
  Heuristic attack tagging of drone telemetry.

  Each telemetry row is run through four checks in a fixed order
  (protocol/frequency table, GPS speed, traffic volume, signal-strength
  change); a check that fires overwrites the row's attack type, so the last
  check to fire decides it.  The attack type is then mapped to a binary
  normal/malicious label.
 */
module AnalyzeDrone {

  /** A (latitude, longitude) pair, already parsed from its text form. */
  datatype Coord = Coord(lat: real, lon: real)

  /** The columns of one telemetry row that the checks read, already converted. */
  datatype Row = Row(
    protocol: string,  // communication_protocol
    frequency: real,   // frequency_band, in GHz
    packets: int,      // network_traffic_volume
    signal: real,      // signal_strength
    coord: Coord,      // drone_gps_coordinates
    timestamp: int     // timestamp, in whole seconds
  )

  /** The attack type given to a row. */
  datatype AttackType =
    | Normal
    | ProtocolFrequencyMismatch
    | GpsSpoofing
    | TrafficAnomaly
    | SignalJamming
  {
    /** The text written to the Attack_Type column. */
    function Name(): string {
      match this
      case Normal => "normal"
      case ProtocolFrequencyMismatch => "Protocol_Frequency_Mismatch"
      case GpsSpoofing => "GPS_Spoofing"
      case TrafficAnomaly => "Traffic_Anomaly"
      case SignalJamming => "Signal_Jamming"
    }
  }

  datatype Option<T> = None | Some(value: T)

  /** The five texts an Attack_Type entry can take. */
  const AttackNames: set<string> :=
    {"normal", "Protocol_Frequency_Mismatch", "GPS_Spoofing", "Traffic_Anomaly", "Signal_Jamming"}

  /** A distance in kilometres. */
  type Km = d: real | 0.0 <= d

  /**
    The great-circle distance between two points.  It is computed by an
    external library, so the model takes it as a parameter and knows only
    that it is non-negative.
   */
  type Geodesic = (Coord, Coord) -> Km

  // Thresholds of the checks.
  const MaxSpeedKmh: real := 500.0
  const MaxPackets: int := 1000
  const MaxSignalDelta: real := 20.0
  const SecondsPerHour: real := 3600.0

  function Abs(x: real): real {
    if x < 0.0 then -x else x
  }

  // ---------------------------------------------------------------------
  // The four checks
  // ---------------------------------------------------------------------

  /** The protocol is ZigBee, LoRa or Wi-Fi and the frequency is not one it may use. */
  predicate FrequencyMismatch(r: Row) {
    || (r.protocol == "ZigBee" && r.frequency !in [2.4])
    || (r.protocol == "LoRa" && r.frequency !in [0.868, 2.4])
    || (r.protocol == "Wi-Fi" && r.frequency !in [2.4, 5.0])
  }

  /** The same protocol/frequency rule written as a lookup table: the bands a protocol may use, if the table knows it. */
  function AllowedBands(protocol: string): Option<seq<real>> {
    if protocol == "ZigBee" then Some([2.4])
    else if protocol == "LoRa" then Some([0.868, 2.4])
    else if protocol == "Wi-Fi" then Some([2.4, 5.0])
    else None
  }

  /** Hours from the previous row's timestamp to the current one's (negative when time goes back). */
  function ElapsedHours(prev: Row, cur: Row): real {
    (cur.timestamp - prev.timestamp) as real / SecondsPerHour
  }

  /** Time has moved forward and the implied ground speed exceeds the limit. */
  predicate GpsSpoofed(geodesic: Geodesic, prev: Row, cur: Row) {
    var hours := ElapsedHours(prev, cur);
    hours > 0.0 && geodesic(cur.coord, prev.coord) / hours > MaxSpeedKmh
  }

  predicate TrafficAnomalous(r: Row) {
    r.packets > MaxPackets
  }

  predicate SignalJammed(prev: Row, cur: Row) {
    Abs(cur.signal - prev.signal) > MaxSignalDelta
  }

  // ---------------------------------------------------------------------
  // Last check to fire wins
  // ---------------------------------------------------------------------

  /** A check's outcome on one row and the attack type it assigns when it fires. */
  datatype Check = Check(fires: bool, attack: AttackType)

  /** One check: when it fires, its attack type replaces the current one. */
  function Step(current: AttackType, c: Check): AttackType {
    if c.fires then c.attack else current
  }

  /** Runs the checks in order from `start`; each one that fires overwrites the current attack type. */
  function Overwrite(start: AttackType, checks: seq<Check>): AttackType
    decreases |checks|
  {
    if checks == [] then start
    else Overwrite(Step(start, checks[0]), checks[1..])
  }

  /** When no check fires, the starting attack type is kept. */
  lemma {:induction false} OverwriteNoneFired(start: AttackType, checks: seq<Check>)
    requires forall k :: 0 <= k < |checks| ==> !checks[k].fires
    ensures Overwrite(start, checks) == start
    decreases |checks|
  {
    if checks != [] {
      OverwriteNoneFired(start, checks[1..]);
    }
  }

  /** The last check that fires decides the attack type. */
  lemma {:induction false} OverwriteLastFired(start: AttackType, checks: seq<Check>, k: nat)
    requires k < |checks| && checks[k].fires
    requires forall j :: k < j < |checks| ==> !checks[j].fires
    ensures Overwrite(start, checks) == checks[k].attack
    decreases |checks|
  {
    var next := Step(start, checks[0]);
    if k == 0 {
      OverwriteNoneFired(next, checks[1..]);
    } else {
      OverwriteLastFired(next, checks[1..], k - 1);
    }
  }

  /** When some check fires, the result is the attack type of a check that fired. */
  lemma {:induction false} OverwriteSomeFired(start: AttackType, checks: seq<Check>)
    requires exists k :: 0 <= k < |checks| && checks[k].fires
    ensures exists k :: 0 <= k < |checks| && checks[k].fires && Overwrite(start, checks) == checks[k].attack
    decreases |checks|
  {
    var next := Step(start, checks[0]);
    if exists k :: 0 <= k < |checks[1..]| && checks[1..][k].fires {
      OverwriteSomeFired(next, checks[1..]);
      var k :| 0 <= k < |checks[1..]| && checks[1..][k].fires && Overwrite(next, checks[1..]) == checks[1..][k].attack;
      assert checks[k + 1] == checks[1..][k];
    } else {
      OverwriteNoneFired(next, checks[1..]);
      assert checks[0].fires;
    }
  }

  // ---------------------------------------------------------------------
  // Per-row specification
  // ---------------------------------------------------------------------

  /** The four checks on row i, in the order they run; the lookback checks never fire on row 0. */
  function RowChecks(geodesic: Geodesic, rows: seq<Row>, i: nat): seq<Check>
    requires i < |rows|
  {
    [ Check(FrequencyMismatch(rows[i]), ProtocolFrequencyMismatch),
      Check(i > 0 && GpsSpoofed(geodesic, rows[i - 1], rows[i]), GpsSpoofing),
      Check(TrafficAnomalous(rows[i]), TrafficAnomaly),
      Check(i > 0 && SignalJammed(rows[i - 1], rows[i]), SignalJamming) ]
  }

  /** The attack type of row i: start from normal and let each firing check overwrite it. */
  function RowAttack(geodesic: Geodesic, rows: seq<Row>, i: nat): AttackType
    requires i < |rows|
  {
    Overwrite(Normal, RowChecks(geodesic, rows, i))
  }

  /** Row i's attack type as the four overwrites, one after the other. */
  lemma RowAttackInSteps(geodesic: Geodesic, rows: seq<Row>, i: nat)
    requires i < |rows|
    ensures var checks := RowChecks(geodesic, rows, i);
      RowAttack(geodesic, rows, i) == Step(Step(Step(Step(Normal, checks[0]), checks[1]), checks[2]), checks[3])
  {
    var checks := RowChecks(geodesic, rows, i);
    var a0 := Step(Normal, checks[0]);
    var a1 := Step(a0, checks[1]);
    var a2 := Step(a1, checks[2]);
    var a3 := Step(a2, checks[3]);
    assert Overwrite(a3, checks[4..]) == a3;
    assert Overwrite(a2, checks[3..]) == a3;
    assert Overwrite(a1, checks[2..]) == a3;
    assert Overwrite(a0, checks[1..]) == a3;
  }

  /** The attack type of every row, in row order. */
  function Detect(geodesic: Geodesic, rows: seq<Row>): seq<AttackType> {
    seq(|rows|, i requires 0 <= i < |rows| => RowAttack(geodesic, rows, i))
  }

  /**
    One pass over the rows: a local attack type starts as normal, each check
    that fires reassigns it, and it is appended to the result.
   */
  method DetectAttacks(geodesic: Geodesic, rows: seq<Row>) returns (attackTypes: seq<AttackType>)
    ensures |attackTypes| == |rows|
    ensures attackTypes == Detect(geodesic, rows)
  {
    attackTypes := [];
    var i := 0;
    while i < |rows|
      invariant 0 <= i <= |rows|
      invariant |attackTypes| == i
      invariant forall k :: 0 <= k < i ==> attackTypes[k] == RowAttack(geodesic, rows, k)
    {
      var row := rows[i];
      var attack := Normal;

      if FrequencyMismatch(row) {
        attack := ProtocolFrequencyMismatch;
      }

      if i > 0 {
        var prev := rows[i - 1];
        var hours := (row.timestamp - prev.timestamp) as real / SecondsPerHour;
        if hours > 0.0 {
          var dist := geodesic(row.coord, prev.coord);
          var speed := dist / hours;
          if speed > MaxSpeedKmh {
            attack := GpsSpoofing;
          }
        }
      }

      if row.packets > MaxPackets {
        attack := TrafficAnomaly;
      }

      if i > 0 {
        var prevSignal := rows[i - 1].signal;
        if Abs(row.signal - prevSignal) > MaxSignalDelta {
          attack := SignalJamming;
        }
      }

      RowAttackInSteps(geodesic, rows, i);
      attackTypes := attackTypes + [attack];
      i := i + 1;
    }
  }

  // ---------------------------------------------------------------------
  // Properties of the per-row specification
  // ---------------------------------------------------------------------

  /** The table form and the written-out condition of the protocol/frequency check agree. */
  lemma FrequencyMismatchIsTableLookup(r: Row)
    ensures FrequencyMismatch(r) <==>
      AllowedBands(r.protocol).Some? && r.frequency !in AllowedBands(r.protocol).value
  {
  }

  /** Row 0 has no predecessor, so it is never GPS spoofing or signal jamming. */
  lemma FirstRowExempt(geodesic: Geodesic, rows: seq<Row>)
    requires |rows| > 0
    ensures RowAttack(geodesic, rows, 0) != GpsSpoofing
    ensures RowAttack(geodesic, rows, 0) != SignalJamming
  {
    var checks := RowChecks(geodesic, rows, 0);
    if exists k :: 0 <= k < |checks| && checks[k].fires {
      OverwriteSomeFired(Normal, checks);
    } else {
      OverwriteNoneFired(Normal, checks);
    }
  }

  /** A signal-strength change above the threshold on a later row makes it signal jamming, whatever else holds. */
  lemma SignalJammingWins(geodesic: Geodesic, rows: seq<Row>, i: nat)
    requires 0 < i < |rows|
    requires SignalJammed(rows[i - 1], rows[i])
    ensures RowAttack(geodesic, rows, i) == SignalJamming
  {
    OverwriteLastFired(Normal, RowChecks(geodesic, rows, i), 3);
  }

  /** Without signal jamming, heavy traffic makes the row a traffic anomaly, whatever the earlier checks say. */
  lemma TrafficAnomalyWins(geodesic: Geodesic, rows: seq<Row>, i: nat)
    requires i < |rows|
    requires !(i > 0 && SignalJammed(rows[i - 1], rows[i]))
    requires TrafficAnomalous(rows[i])
    ensures RowAttack(geodesic, rows, i) == TrafficAnomaly
  {
    OverwriteLastFired(Normal, RowChecks(geodesic, rows, i), 2);
  }

  /** Without signal jamming or heavy traffic, an implausible speed makes the row GPS spoofing. */
  lemma GpsSpoofingWins(geodesic: Geodesic, rows: seq<Row>, i: nat)
    requires 0 < i < |rows|
    requires !SignalJammed(rows[i - 1], rows[i]) && !TrafficAnomalous(rows[i])
    requires GpsSpoofed(geodesic, rows[i - 1], rows[i])
    ensures RowAttack(geodesic, rows, i) == GpsSpoofing
  {
    OverwriteLastFired(Normal, RowChecks(geodesic, rows, i), 1);
  }

  /** A row is a protocol/frequency mismatch exactly when that check fires and none of the three later ones does. */
  lemma MismatchExactly(geodesic: Geodesic, rows: seq<Row>, i: nat)
    requires i < |rows|
    ensures RowAttack(geodesic, rows, i) == ProtocolFrequencyMismatch <==>
      && FrequencyMismatch(rows[i])
      && !(i > 0 && GpsSpoofed(geodesic, rows[i - 1], rows[i]))
      && !TrafficAnomalous(rows[i])
      && !(i > 0 && SignalJammed(rows[i - 1], rows[i]))
  {
    var checks := RowChecks(geodesic, rows, i);
    if checks[3].fires {
      OverwriteLastFired(Normal, checks, 3);
    } else if checks[2].fires {
      OverwriteLastFired(Normal, checks, 2);
    } else if checks[1].fires {
      OverwriteLastFired(Normal, checks, 1);
    } else if checks[0].fires {
      OverwriteLastFired(Normal, checks, 0);
    } else {
      OverwriteNoneFired(Normal, checks);
    }
  }

  /** A protocol outside ZigBee, LoRa and Wi-Fi is never a protocol/frequency mismatch. */
  lemma UnknownProtocolNeverMismatch(geodesic: Geodesic, rows: seq<Row>, i: nat)
    requires i < |rows|
    requires rows[i].protocol !in {"ZigBee", "LoRa", "Wi-Fi"}
    ensures RowAttack(geodesic, rows, i) != ProtocolFrequencyMismatch
  {
    MismatchExactly(geodesic, rows, i);
  }

  /** When time does not move forward, the GPS check does not fire and the row is not GPS spoofing. */
  lemma NoElapsedTimeNoGpsSpoofing(geodesic: Geodesic, rows: seq<Row>, i: nat)
    requires 0 < i < |rows|
    requires rows[i].timestamp <= rows[i - 1].timestamp
    ensures ElapsedHours(rows[i - 1], rows[i]) <= 0.0
    ensures !GpsSpoofed(geodesic, rows[i - 1], rows[i])
    ensures RowAttack(geodesic, rows, i) != GpsSpoofing
  {
    var checks := RowChecks(geodesic, rows, i);
    if exists k :: 0 <= k < |checks| && checks[k].fires {
      OverwriteSomeFired(Normal, checks);
    } else {
      OverwriteNoneFired(Normal, checks);
    }
  }

  /** A row is normal exactly when none of the four checks fires on it. */
  lemma NormalIffNoCheckFires(geodesic: Geodesic, rows: seq<Row>, i: nat)
    requires i < |rows|
    ensures RowAttack(geodesic, rows, i) == Normal <==>
      && !FrequencyMismatch(rows[i])
      && !(i > 0 && GpsSpoofed(geodesic, rows[i - 1], rows[i]))
      && !TrafficAnomalous(rows[i])
      && !(i > 0 && SignalJammed(rows[i - 1], rows[i]))
  {
    var checks := RowChecks(geodesic, rows, i);
    if checks[0].fires || checks[1].fires || checks[2].fires || checks[3].fires {
      OverwriteSomeFired(Normal, checks);
    } else {
      OverwriteNoneFired(Normal, checks);
    }
  }

  /** A row's attack type depends only on that row, the row before it, and whether it is the first row. */
  lemma RowAttackIsLocal(geodesic: Geodesic, rows: seq<Row>, i: nat, others: seq<Row>, j: nat)
    requires i < |rows| && j < |others|
    requires rows[i] == others[j]
    requires i == 0 <==> j == 0
    requires i > 0 ==> rows[i - 1] == others[j - 1]
    ensures RowAttack(geodesic, rows, i) == RowAttack(geodesic, others, j)
  {
  }

  /** Rows appended later never change the attack types of the rows before them. */
  lemma LaterRowsDoNotMatter(geodesic: Geodesic, rows: seq<Row>, later: seq<Row>)
    ensures Detect(geodesic, rows + later)[..|rows|] == Detect(geodesic, rows)
  {
  }

  // ---------------------------------------------------------------------
  // Worked examples
  // ---------------------------------------------------------------------

  /** ZigBee is only allowed 2.4 GHz, so a lone ZigBee row at 5.0 GHz is a mismatch. */
  lemma ExampleZigBeeAtFiveGhz(geodesic: Geodesic, c: Coord)
    ensures Detect(geodesic, [Row("ZigBee", 5.0, 10, -40.0, c, 0)]) == [ProtocolFrequencyMismatch]
  {
    RowAttackInSteps(geodesic, [Row("ZigBee", 5.0, 10, -40.0, c, 0)], 0);
  }

  /** 600 km covered in one hour is 600 km/h, above the limit. */
  lemma ExampleFastMove(geodesic: Geodesic, a: Coord, b: Coord)
    requires geodesic(b, a) == 600.0
    ensures Detect(geodesic, [Row("Wi-Fi", 2.4, 10, -40.0, a, 0), Row("Wi-Fi", 2.4, 10, -40.0, b, 3600)])
      == [Normal, GpsSpoofing]
  {
    var rows := [Row("Wi-Fi", 2.4, 10, -40.0, a, 0), Row("Wi-Fi", 2.4, 10, -40.0, b, 3600)];
    RowAttackInSteps(geodesic, rows, 0);
    RowAttackInSteps(geodesic, rows, 1);
  }

  /** A signal drop of 25 on a row that also carries 1500 packets ends up as signal jamming. */
  lemma ExampleJammingOverTraffic(geodesic: Geodesic, c: Coord)
    ensures Detect(geodesic, [Row("LoRa", 0.868, 10, -40.0, c, 0), Row("LoRa", 0.868, 1500, -65.0, c, 0)])
      == [Normal, SignalJamming]
  {
    var rows := [Row("LoRa", 0.868, 10, -40.0, c, 0), Row("LoRa", 0.868, 1500, -65.0, c, 0)];
    RowAttackInSteps(geodesic, rows, 0);
    RowAttackInSteps(geodesic, rows, 1);
  }

  // ---------------------------------------------------------------------
  // Attack_Type and Label columns
  // ---------------------------------------------------------------------

  /** The Attack_Type column: the name of each attack type. */
  function AttackColumn(attackTypes: seq<AttackType>): (column: seq<string>)
    ensures |column| == |attackTypes|
    ensures forall k :: 0 <= k < |column| ==> column[k] in AttackNames
  {
    seq(|attackTypes|, k requires 0 <= k < |attackTypes| => attackTypes[k].Name())
  }

  /** Distinct attack types have distinct names, so the column can be read back. */
  lemma NameInjective(a: AttackType, b: AttackType)
    requires a.Name() == b.Name()
    ensures a == b
  {
  }

  /** The label of one Attack_Type entry. */
  function LabelOf(attackType: string): (result: string)
    ensures result in {"normal", "malicious"}
    ensures result == "malicious" <==> attackType != "normal"
  {
    if attackType != "normal" then "malicious" else "normal"
  }

  /** The Label column, entry by entry from the Attack_Type column. */
  function LabelColumn(attackColumn: seq<string>): (labels: seq<string>)
    ensures |labels| == |attackColumn|
    ensures forall k :: 0 <= k < |labels| ==>
      (labels[k] == "malicious" <==> attackColumn[k] != "normal") &&
      (labels[k] == "normal" <==> attackColumn[k] == "normal")
  {
    seq(|attackColumn|, k requires 0 <= k < |attackColumn| => LabelOf(attackColumn[k]))
  }

  /** A row's label is malicious exactly when its attack type is not normal. */
  lemma LabelOfAttackType(a: AttackType)
    ensures LabelOf(a.Name()) == "malicious" <==> a != Normal
    ensures LabelOf(a.Name()) == "normal" <==> a == Normal
  {
  }

  /** End to end: row k is labelled malicious exactly when one of the four checks fires on it. */
  lemma MaliciousIffSomeCheckFires(geodesic: Geodesic, rows: seq<Row>, k: nat)
    requires k < |rows|
    ensures |LabelColumn(AttackColumn(Detect(geodesic, rows)))| == |rows|
    ensures LabelColumn(AttackColumn(Detect(geodesic, rows)))[k] == "malicious" <==>
      || FrequencyMismatch(rows[k])
      || (k > 0 && GpsSpoofed(geodesic, rows[k - 1], rows[k]))
      || TrafficAnomalous(rows[k])
      || (k > 0 && SignalJammed(rows[k - 1], rows[k]))
  {
    NormalIffNoCheckFires(geodesic, rows, k);
    LabelOfAttackType(RowAttack(geodesic, rows, k));
  }
}
