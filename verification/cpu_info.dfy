/** `get_cpu_info_baseline`: the CPU count from `lscpu -p` and the 64-bit flag from `lscpu`. */
module CpuInfo {

  import opened Wrappers
  import opened Errors
  import opened Text

  /** The output of one `IO.popen` of `lscpu`, or the message of the exception it raised. */
  datatype Probe = Ran(lines: seq<string>) | Threw(message: string)

  const OpModeKey: string := "CPU op-mode(s):"

  /** A line of `lscpu -p` that describes one CPU: it starts with a decimal digit. */
  predicate IsCpuLine(line: string) {
    |line| > 0 && IsDigit(line[0])
  }

  /** Line 420: the number of digit-leading lines. */
  function CountCpuLines(lines: seq<string>): (n: nat)
    ensures n <= |lines|
  {
    if |lines| == 0 then 0
    else CountCpuLines(lines[..|lines| - 1]) + (if IsCpuLine(lines[|lines| - 1]) then 1 else 0)
  }

  /** The count is zero exactly when no line describes a CPU. */
  lemma {:induction false} CountCpuLinesZero(lines: seq<string>)
    ensures CountCpuLines(lines) == 0 <==> forall i :: 0 <= i < |lines| ==> !IsCpuLine(lines[i])
  {
    if |lines| > 0 {
      var init := lines[..|lines| - 1];
      CountCpuLinesZero(init);
      assert forall i :: 0 <= i < |init| ==> init[i] == lines[i];
    }
  }

  /** Output read in two parts counts as the sum of its parts. */
  lemma {:induction false} CountCpuLinesAppend(a: seq<string>, b: seq<string>)
    ensures CountCpuLines(a + b) == CountCpuLines(a) + CountCpuLines(b)
    decreases |b|
  {
    if |b| == 0 {
      assert a + b == a;
    } else {
      var b' := b[..|b| - 1];
      assert (a + b)[..|a + b| - 1] == a + b';
      assert (a + b)[|a + b| - 1] == b[|b| - 1];
      CountCpuLinesAppend(a, b');
    }
  }

  /** Lines 425-432: the first line that starts with "CPU op-mode(s):" decides, and it says
      64-bit when it mentions "64-bit"; without such a line the flag stays false. */
  function OpModeIs64(lines: seq<string>): bool
  {
    if |lines| == 0 then false
    else if StartsWith(lines[0], OpModeKey) then Contains(lines[0], "64-bit")
    else OpModeIs64(lines[1..])
  }

  /** The flag is set exactly when some op-mode line mentions 64-bit and no op-mode line
      comes before it. */
  lemma {:induction false} OpModeIs64Iff(lines: seq<string>)
    ensures OpModeIs64(lines) <==>
              exists i :: 0 <= i < |lines| && StartsWith(lines[i], OpModeKey) && Contains(lines[i], "64-bit")
                          && forall j :: 0 <= j < i ==> !StartsWith(lines[j], OpModeKey)
  {
    if |lines| > 0 && !StartsWith(lines[0], OpModeKey) {
      var tail := lines[1..];
      OpModeIs64Iff(tail);
      if OpModeIs64(lines) {
        var i :| 0 <= i < |tail| && StartsWith(tail[i], OpModeKey) && Contains(tail[i], "64-bit")
                 && forall j :: 0 <= j < i ==> !StartsWith(tail[j], OpModeKey);
        assert forall j :: 1 <= j < i + 1 ==> lines[j] == tail[j - 1];
        assert lines[i + 1] == tail[i];
      }
      if exists i :: 0 <= i < |lines| && StartsWith(lines[i], OpModeKey) && Contains(lines[i], "64-bit")
                     && forall j :: 0 <= j < i ==> !StartsWith(lines[j], OpModeKey) {
        var i :| 0 <= i < |lines| && StartsWith(lines[i], OpModeKey) && Contains(lines[i], "64-bit")
                 && forall j :: 0 <= j < i ==> !StartsWith(lines[j], OpModeKey);
        assert i > 0;
        assert forall j :: 0 <= j < i - 1 ==> tail[j] == lines[j + 1];
        assert tail[i - 1] == lines[i];
      }
    }
  }

  /** `get_cpu_info_baseline`: the CPU count (an error value when none is found) and the
      64-bit flag. Any exception raised by either `lscpu` run is rescued into an error count
      with the flag set to true. */
  function CpuInfoBaseline(list: Probe, summary: Probe): (r: (Result<nat, Error>, bool))
    ensures list.Threw? ==> r == (Failure(Unavailable(list.message)), true)
    ensures list.Ran? && summary.Threw? ==> r == (Failure(Unavailable(summary.message)), true)
    ensures list.Ran? && summary.Ran? ==>
              && (r.0.Failure? <==> forall i :: 0 <= i < |list.lines| ==> !IsCpuLine(list.lines[i]))
              && (r.0.Failure? ==> r.0.error == Unavailable("No CPUs found"))
              && (r.0.Success? ==> r.0.value == CountCpuLines(list.lines) && r.0.value > 0)
              && (r.1 <==> exists i :: 0 <= i < |summary.lines| && StartsWith(summary.lines[i], OpModeKey)
                                      && Contains(summary.lines[i], "64-bit")
                                      && forall j :: 0 <= j < i ==> !StartsWith(summary.lines[j], OpModeKey))
  {
    if list.Threw? then (Failure(Unavailable(list.message)), true)
    else
      var n := CountCpuLines(list.lines);
      if summary.Threw? then (Failure(Unavailable(summary.message)), true)
      else
        CountCpuLinesZero(list.lines);
        OpModeIs64Iff(summary.lines);
        (if n == 0 then Failure(Unavailable("No CPUs found")) else Success(n), OpModeIs64(summary.lines))
  }
}
