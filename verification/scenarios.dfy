/** Worked cycles with driver-shaped payloads. */
module Scenarios {
  import opened Wrappers
  import opened Strconv
  import opened Payload
  import opened Sampler

  /** A scratchpad line as the w1_therm driver prints it. */
  const Scratch: string := "72 01 4b 46 7f ff 0e 10 57"

  /** Raw values scale to tenths of a degree toward zero: 23562 to 235, -505 to -5, -99 to 0. */
  lemma ScaleExamples()
    ensures Decidegrees(23562) == 235
    ensures Decidegrees(21312) == 213
    ensures Decidegrees(-505) == -5
    ensures Decidegrees(-99) == 0
    ensures Decidegrees(-500) == -5
  {
  }

  /** Values the driver never writes but Go still accepts: a plus sign, zero padding, `-0`. */
  lemma LenientValues()
    ensures Atoi("+0021312") == Some(21312)
    ensures Atoi("-0") == Some(0)
  {
    PlusPadded();
    PlainValue();
    assert "-0" == "-" + "0";
    AtoiMinusSign("0");
  }

  lemma PlusPadded()
    ensures Atoi("+0021312") == Atoi("21312")
  {
    Padded();
    assert "+0021312" == "+" + "0021312";
    AtoiPlusSign("0021312");
  }

  lemma Padded()
    ensures Atoi("0021312") == Atoi("21312")
  {
    assert "0021312" == "0" + "021312";
    assert "021312" == "0" + "21312";
    AtoiLeadingZero("021312");
    AtoiLeadingZero("21312");
  }

  lemma PlainValue()
    ensures Atoi("21312") == Some(21312)
  {
    assert "21312"[..4] == "2131" && "2131"[..3] == "213" && "213"[..2] == "21" && "21"[..1] == "2";
    assert DigitsValue("2131") == 2131;
    assert Magnitude("21312") == "21312";
  }

  lemma ScratchIsHex()
    ensures IsHexText(Scratch) && IsHexText("57")
  {
  }

  /** Cycle 1 with sensor `28-000001` reporting `YES ... t=21312` and `28-000002`
      reporting `NO ... t=18875`: only the first is published, as 21.3 degrees. */
  lemma TwoSensorCycle(t: int)
    ensures var st := Cycle(Initial,
                            Events([Sample("28-000001", Some(DriverText(Scratch, "57", true, 21312)), t),
                                    Sample("28-000002", Some(DriverText(Scratch, "57", false, 18875)), t)]),
                            t);
            st.gauge == map["28-000001" := 213] && st.registry == map["28-000001" := t]
  {
    var good := Sample("28-000001", Some(DriverText(Scratch, "57", true, 21312)), t);
    var bad := Sample("28-000002", Some(DriverText(Scratch, "57", false, 18875)), t);
    var mid := State(map["28-000001" := 213], map["28-000001" := t]);
    TwoSensorReads(good, bad, t);
    assert ApplyAll(Initial, Events([good, bad])) == mid;
    SweepKeepsFresh(mid, t);
  }

  lemma TwoSensorReads(good: Sample, bad: Sample, t: int)
    requires good == Sample("28-000001", Some(DriverText(Scratch, "57", true, 21312)), t)
    requires bad == Sample("28-000002", Some(DriverText(Scratch, "57", false, 18875)), t)
    ensures ApplyAll(Initial, Events([good, bad])) == State(map["28-000001" := 213], map["28-000001" := t])
  {
    var mid := State(map["28-000001" := 213], map["28-000001" := t]);
    var g := Observe(good);
    var b := Observe(bad);
    GoodSensorEvent(good, t);
    BadSensorEvent(bad, t);
    assert Events([good, bad]) == [g, b];
    var es := [g, b];
    assert es[..1] == [g];
    assert [g][..0] == [];
    assert ApplyAll(Initial, [g]) == mid;
    assert mid.gauge - {"28-000002"} == mid.gauge;
  }

  lemma GoodSensorEvent(good: Sample, t: int)
    requires good == Sample("28-000001", Some(DriverText(Scratch, "57", true, 21312)), t)
    ensures Observe(good) == Event("28-000001", Reading(213), t)
  {
    ScratchIsHex();
    DriverTextParseOk(Scratch, "57", 21312);
  }

  lemma BadSensorEvent(bad: Sample, t: int)
    requires bad == Sample("28-000002", Some(DriverText(Scratch, "57", false, 18875)), t)
    ensures Observe(bad) == Event("28-000002", ChecksumFail, t)
  {
    ScratchIsHex();
    DriverTextParseBad(Scratch, "57", 18875);
  }

  /** Then 301 seconds with no further reading of `28-000001`: the next sweep removes it. */
  lemma SensorExpiresAfter301Seconds(t: int)
    ensures Sweep(State(map["28-000001" := 213], map["28-000001" := t]), t + 301) == Initial
  {
    var st := State(map["28-000001" := 213], map["28-000001" := t]);
    var r := Sweep(st, t + 301);
    assert "28-000001" !in r.registry && "28-000001" !in r.gauge;
    assert r.registry == map[];
    assert r.gauge == map[];
  }
}
