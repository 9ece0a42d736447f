/**
 The per-core split of Semester_Project/src/preprocess.rs. A temperature
 line holds a time step and one reading per CPU core; preprocessing turns a
 list of lines into one (times, temps) pair of sequences per core, the
 column view of the same data. The readings are only copied, so `real`
 stands in for the source's f64.
 */
module Preprocess {

  /** One parsed input line: a time step and one temperature per core. */
  datatype TemperatureLine = TemperatureLine(timeStep: int, readings: seq<real>)

  /** The time and temperature series of a single CPU core. */
  datatype CoreData = CoreData(times: seq<real>, temps: seq<real>)

  /** The number of cores, taken from the first line; 0 when there are no lines. */
  function NumCores(lines: seq<TemperatureLine>): nat
  {
    if |lines| == 0 then 0 else |lines[0].readings|
  }

  /** No line has more readings than the first: a longer one would index past
      the per-core list the source allocated, which panics. */
  predicate FitsFirst(lines: seq<TemperatureLine>)
  {
    forall i :: 0 <= i < |lines| ==> |lines[i].readings| <= NumCores(lines)
  }

  /** Appends one (time, temperature) pair to a core's series. */
  function Push(core: CoreData, time: real, temp: real): CoreData
  {
    CoreData(core.times + [time], core.temps + [temp])
  }

  /** The column reference: the series of core `c` is made of the lines that
      have a reading for core `c`, in order, each giving its time step and
      its `c`-th reading. */
  function Column(lines: seq<TemperatureLine>, c: nat): CoreData
  {
    if |lines| == 0 then CoreData([], [])
    else
      var init := Column(lines[..|lines| - 1], c);
      var last := lines[|lines| - 1];
      if c < |last.readings| then Push(init, last.timeStep as real, last.readings[c]) else init
  }

  /** `preprocess(readings)`: allocate one empty CoreData per core of the first
      line, then walk the lines in order and push each reading's time step and
      value onto the series of its core. */
  method Preprocess(lines: seq<TemperatureLine>) returns (cores: seq<CoreData>)
    requires FitsFirst(lines)
    ensures |cores| == NumCores(lines)
    ensures forall c :: 0 <= c < |cores| ==> cores[c] == Column(lines, c)
  {
    var n := NumCores(lines);
    cores := [];
    while |cores| < n
      invariant |cores| <= n
      invariant forall c :: 0 <= c < |cores| ==> cores[c] == CoreData([], [])
    {
      cores := cores + [CoreData([], [])];
    }
    var i := 0;
    while i < |lines|
      invariant 0 <= i <= |lines| && |cores| == n
      invariant forall c :: 0 <= c < n ==> cores[c] == Column(lines[..i], c)
    {
      var line := lines[i];
      assert lines[..i + 1][..i] == lines[..i];
      var c := 0;
      while c < |line.readings|
        invariant 0 <= c <= |line.readings| <= n && |cores| == n
        invariant forall d :: 0 <= d < c ==> cores[d] == Column(lines[..i + 1], d)
        invariant forall d :: c <= d < n ==> cores[d] == Column(lines[..i], d)
      {
        cores := cores[c := Push(cores[c], line.timeStep as real, line.readings[c])];
        c := c + 1;
      }
      i := i + 1;
    }
    assert lines[..|lines|] == lines;
  }

  /** Times and temperatures are pushed together, so every core's two series
      have the same length. */
  lemma {:induction false} ColumnLengthsAgree(lines: seq<TemperatureLine>, c: nat)
    ensures |Column(lines, c).times| == |Column(lines, c).temps|
  {
    if |lines| > 0 {
      ColumnLengthsAgree(lines[..|lines| - 1], c);
    }
  }

  /** When every line has readings for all `n` cores, core `c` gets one entry
      per line, in order: the line's time step and its `c`-th reading. */
  lemma {:induction false} ColumnOfFullLines(lines: seq<TemperatureLine>, n: nat, c: nat)
    requires c < n
    requires forall i :: 0 <= i < |lines| ==> |lines[i].readings| == n
    ensures var col := Column(lines, c);
      && |col.times| == |lines| && |col.temps| == |lines|
      && (forall i :: 0 <= i < |lines| ==> col.times[i] == lines[i].timeStep as real)
      && (forall i :: 0 <= i < |lines| ==> col.temps[i] == lines[i].readings[c])
  {
    if |lines| > 0 {
      var init := lines[..|lines| - 1];
      ColumnOfFullLines(init, n, c);
    }
  }

  /** A line with fewer readings than cores adds nothing to the cores past
      its last reading; the cores it covers each gain exactly its entry. */
  lemma {:induction false} ShortLineLeavesOthers(lines: seq<TemperatureLine>, line: TemperatureLine, c: nat)
    ensures |line.readings| <= c ==> Column(lines + [line], c) == Column(lines, c)
    ensures c < |line.readings| ==>
      Column(lines + [line], c) == Push(Column(lines, c), line.timeStep as real, line.readings[c])
  {
    assert (lines + [line])[..|lines|] == lines;
  }

  /** The positions of the lines that have a reading for core `c`, in
      increasing order: exactly those lines, each once. */
  function Covering(lines: seq<TemperatureLine>, c: nat): (ix: seq<nat>)
    ensures forall t :: 0 <= t < |ix| ==> ix[t] < |lines| && c < |lines[ix[t]].readings|
    ensures forall s, t :: 0 <= s < t < |ix| ==> ix[s] < ix[t]
  {
    if |lines| == 0 then []
    else
      var n := |lines| - 1;
      var init := Covering(lines[..n], c);
      assert forall t :: 0 <= t < |init| ==> lines[..n][init[t]] == lines[init[t]];
      if c < |lines[n].readings| then init + [n] else init
  }

  /** No line with a reading for core `c` is missed. */
  lemma {:induction false} CoveringComplete(lines: seq<TemperatureLine>, c: nat, i: nat)
    requires i < |lines| && c < |lines[i].readings|
    ensures i in Covering(lines, c)
  {
    var n := |lines| - 1;
    if i < n {
      CoveringComplete(lines[..n], c, i);
    } else {
      assert Covering(lines, c)[|Covering(lines, c)| - 1] == n;
    }
  }

  /** Core `c`'s series for lines of any widths: one entry per line that has a
      `c`-th reading, in line order; entry `t` holds the time step and `c`-th
      reading of the `t`-th such line. */
  lemma {:induction false} ColumnOfLines(lines: seq<TemperatureLine>, c: nat)
    ensures var col := Column(lines, c);
      var ix := Covering(lines, c);
      && |col.times| == |ix| && |col.temps| == |ix|
      && (forall t :: 0 <= t < |ix| ==> col.times[t] == lines[ix[t]].timeStep as real)
      && (forall t :: 0 <= t < |ix| ==> col.temps[t] == lines[ix[t]].readings[c])
  {
    if |lines| > 0 {
      var n := |lines| - 1;
      var init := lines[..n];
      var last := lines[n];
      ColumnOfLines(init, c);
      ShortLineLeavesOthers(init, last, c);
      assert init + [last] == lines;
      var col0, ix0 := Column(init, c), Covering(init, c);
      var col, ix := Column(lines, c), Covering(lines, c);
      if c < |last.readings| {
        assert ix == ix0 + [n];
        assert col == Push(col0, last.timeStep as real, last.readings[c]);
        forall t | 0 <= t < |ix|
          ensures col.times[t] == lines[ix[t]].timeStep as real
          ensures col.temps[t] == lines[ix[t]].readings[c]
        {
          if t < |ix0| {
            assert init[ix0[t]] == lines[ix0[t]];
          }
        }
      } else {
        forall t | 0 <= t < |ix|
          ensures col.times[t] == lines[ix[t]].timeStep as real
          ensures col.temps[t] == lines[ix[t]].readings[c]
        {
          assert init[ix0[t]] == lines[ix0[t]];
        }
      }
    }
  }

  /** Preprocessing a list whose lines all have the first line's number of
      readings gives every core a full series of |lines| entries, in line
      order, with matching times and temperatures. */
  lemma {:induction false} PreprocessFullLines(lines: seq<TemperatureLine>, cores: seq<CoreData>)
    requires |lines| > 0
    requires forall i :: 0 <= i < |lines| ==> |lines[i].readings| == NumCores(lines)
    requires |cores| == NumCores(lines)
    requires forall c :: 0 <= c < |cores| ==> cores[c] == Column(lines, c)
    ensures forall c :: 0 <= c < |cores| ==>
      && |cores[c].times| == |lines| == |cores[c].temps|
      && (forall i :: 0 <= i < |lines| ==> cores[c].times[i] == lines[i].timeStep as real)
      && (forall i :: 0 <= i < |lines| ==> cores[c].temps[i] == lines[i].readings[c])
  {
    forall c | 0 <= c < |cores|
      ensures |cores[c].times| == |lines| == |cores[c].temps|
      ensures forall i :: 0 <= i < |lines| ==> cores[c].times[i] == lines[i].timeStep as real
      ensures forall i :: 0 <= i < |lines| ==> cores[c].temps[i] == lines[i].readings[c]
    {
      ColumnOfFullLines(lines, NumCores(lines), c);
    }
  }
}
