# Drone telemetry attack tagging, modelled in Dafny

This project models the rule evaluator of a passive drone intrusion-detection
script (`Passive/analyze_drone.py`). The script reads an ordered table of
telemetry rows. It gives each row one attack type and then a binary
normal/malicious label.

For every row the evaluator starts from `normal` and runs four checks in a
fixed order:

1. protocol/frequency table: ZigBee may use 2.4 GHz; LoRa 0.868 or 2.4; Wi-Fi 2.4 or 5.0;
2. GPS speed against the previous row: more than 500 km/h, and only when time moved forward;
3. traffic volume: more than 1000 packets;
4. signal-strength change against the previous row: more than 20.

Each check that fires overwrites the attack type, so the last one to fire
decides. Checks 2 and 4 look back at the previous row and are skipped on the
first row. The label is `malicious` for every attack type except `normal`.

Everything lives in one module, `AnalyzeDrone` (`analyze_drone.dfy`):

- `Row`, `Coord` and `AttackType` are the data model. A row holds the already
  converted columns the checks read. The timestamp is whole seconds.
- `FrequencyMismatch`, `GpsSpoofed`, `TrafficAnomalous` and `SignalJammed` are the
  four check conditions.
- `Overwrite` folds a sequence of checks, each of which replaces the current
  attack type when it fires.
- `RowAttack` is the per-row specification: `Overwrite` from `Normal` over the
  four checks, in source order. `Detect` applies it to every row.
- `DetectAttacks` is the loop of the source. A local `attack` is reassigned by
  each firing check and appended to the result. The method is proved equal to
  `Detect`.
- `AttackColumn`, `LabelOf` and `LabelColumn` produce the `Attack_Type` and
  `Label` text columns.

The geodesic distance is computed by an external library. The model takes it as
a parameter of type `Geodesic`, a function from two coordinates to a
non-negative real. It is called as in the source, with the current coordinate
first.

## Model

| member | source | states |
|---|---|---|
| `AnalyzeDrone.DetectAttacks` | Passive/analyze_drone.py:10-52 | the loop returns exactly one attack type per row, in row order, each equal to the per-row specification `RowAttack` |
| `AnalyzeDrone.RowAttackInSteps` | Passive/analyze_drone.py:14-48 | a row's attack type is the four overwrites applied one after another from `normal`, in the order mismatch, GPS, traffic, jamming |
| `AnalyzeDrone.OverwriteNoneFired` | Passive/analyze_drone.py:14-48 | when no check fires, the starting attack type (`normal`) is kept |
| `AnalyzeDrone.OverwriteLastFired` | Passive/analyze_drone.py:14-48 | the last check that fires decides the attack type, whatever earlier checks assigned |
| `AnalyzeDrone.OverwriteSomeFired` | Passive/analyze_drone.py:14-48 | when any check fires, the result is the attack type of one of the checks that fired |
| `AnalyzeDrone.FrequencyMismatchIsTableLookup` | Passive/analyze_drone.py:24-27 | the mismatch condition is exactly: the protocol is in the table ZigBee→{2.4}, LoRa→{0.868, 2.4}, Wi-Fi→{2.4, 5.0} and the frequency is not among its bands |
| `AnalyzeDrone.FirstRowExempt` | Passive/analyze_drone.py:29-48 | row 0 is never `GPS_Spoofing` and never `Signal_Jamming` |
| `AnalyzeDrone.SignalJammingWins` | Passive/analyze_drone.py:44-48 | on a row after the first, a signal change above 20 makes the row `Signal_Jamming` whatever the other checks say |
| `AnalyzeDrone.TrafficAnomalyWins` | Passive/analyze_drone.py:40-48 | without jamming, more than 1000 packets makes the row `Traffic_Anomaly` whatever the mismatch and GPS checks say |
| `AnalyzeDrone.GpsSpoofingWins` | Passive/analyze_drone.py:29-48 | without jamming or heavy traffic, a speed above 500 km/h makes the row `GPS_Spoofing` |
| `AnalyzeDrone.MismatchExactly` | Passive/analyze_drone.py:23-48 | a row is `Protocol_Frequency_Mismatch` if and only if the table check fires and none of the three later checks does |
| `AnalyzeDrone.UnknownProtocolNeverMismatch` | Passive/analyze_drone.py:24-27 | a protocol other than ZigBee, LoRa or Wi-Fi is never labelled `Protocol_Frequency_Mismatch` |
| `AnalyzeDrone.NoElapsedTimeNoGpsSpoofing` | Passive/analyze_drone.py:33-38 | when the timestamp does not move forward, elapsed hours are ≤ 0, the GPS check (and its division) does not fire, and the row is not `GPS_Spoofing` |
| `AnalyzeDrone.NormalIffNoCheckFires` | Passive/analyze_drone.py:14-48 | a row is `normal` if and only if none of the four check conditions holds on it |
| `AnalyzeDrone.RowAttackIsLocal` | Passive/analyze_drone.py:13-48 | a row's attack type depends only on that row, the row before it, and whether it is the first row |
| `AnalyzeDrone.LaterRowsDoNotMatter` | Passive/analyze_drone.py:11-52 | appending rows to the table never changes the attack types of the rows already there |
| `AnalyzeDrone.ExampleZigBeeAtFiveGhz` | Passive/analyze_drone.py:24-27 | a ZigBee row at 5.0 GHz is tagged `Protocol_Frequency_Mismatch` |
| `AnalyzeDrone.ExampleFastMove` | Passive/analyze_drone.py:30-38 | two rows one hour and 600 km apart: the second is tagged `GPS_Spoofing`, the first `normal` |
| `AnalyzeDrone.ExampleJammingOverTraffic` | Passive/analyze_drone.py:41-48 | a signal drop of 25 on a row with 1500 packets is tagged `Signal_Jamming`, not `Traffic_Anomaly` |
| `AnalyzeDrone.AttackColumn` | Passive/analyze_drone.py:14-60 | the `Attack_Type` column has one entry per row and every entry is one of the five attack-type texts |
| `AnalyzeDrone.NameInjective` | Passive/analyze_drone.py:60-61 | distinct attack types are written as distinct texts |
| `AnalyzeDrone.LabelOf` | Passive/analyze_drone.py:61 | the label is `normal` or `malicious`, and `malicious` exactly when the attack text is not `normal` |
| `AnalyzeDrone.LabelColumn` | Passive/analyze_drone.py:61 | the `Label` column has one entry per row; each is `malicious` iff its attack text is not `normal`, and `normal` iff it is |
| `AnalyzeDrone.LabelOfAttackType` | Passive/analyze_drone.py:60-61 | an attack type's label is `malicious` iff it is not `Normal`, and `normal` iff it is |
| `AnalyzeDrone.MaliciousIffSomeCheckFires` | Passive/analyze_drone.py:10-61 | end to end: a row is labelled `malicious` exactly when at least one of the four check conditions holds on it |

## Left out

- Reading the CSV, the fixed input/output paths, writing the tagged table and the summary, and console output (lines 5-7, 57, 64-65, 68-82): input and output only.
- Parsing the coordinate text with `eval` and the timestamp with `pd.to_datetime` (lines 20-21, 31-32), and the `float`/`int` conversions (lines 17-19, 46): rows are taken as already converted. A cell that fails to convert raises an exception in the script; the model has no such rows.
- Missing cells and library failures that the script does not turn into errors of its own: the model's rows hold present, finite values and its distance function never fails. So the model does not capture the run aborting when the distance library rejects an out-of-range or non-finite coordinate (line 35). It also does not capture empty cells that pandas reads as NaN or NaT and that the checks then classify without raising: a NaT timestamp makes the elapsed time NaN, so the GPS check is skipped for that row and the next (lines 21, 32-34); a NaN frequency on a ZigBee, LoRa or Wi-Fi row is tagged `Protocol_Frequency_Mismatch` (lines 17, 24-27).
- The geodesic distance itself (line 35): it is an ellipsoidal computation of an external library. The model takes it as a caller-supplied function known only to be non-negative.
- The label and attack-type counts and the per-attack-type feature averages (lines 70-88): library aggregation with no logic of the script's own.
- IEEE floating point: frequencies, signal strengths, elapsed hours and speeds are exact reals, so `freq not in [2.4]` is exact equality with the literal and the speed division is exact.
- Timestamps are whole seconds; the script's `total_seconds()` may carry a fraction of a second.
- The passthrough columns (packet loss, round-trip time, altitude, speed trajectory) are not read by the checks and are not modelled.
