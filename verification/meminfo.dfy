/** `get_available_memory_kb`: MemAvailable and MemTotal from the rows of `/proc/meminfo`. */
module MemInfo {

  import opened Wrappers
  import opened Errors

  /** One row as `scanf("%s%d%s")` splits it: key, value and unit. */
  datatype MemRow = MemRow(key: string, value: int, unit: string)

  /** Lines 49-52: a row is taken for `key` when its value is not negative and its unit is kB. */
  predicate Takes(row: MemRow, key: string) {
    row.key == key && row.value >= 0 && row.unit == "kB"
  }

  /** The value of the last row taken for `key`; later rows overwrite earlier ones. */
  function LastValue(rows: seq<MemRow>, key: string): (r: Option<int>)
    ensures r.None? <==> forall i :: 0 <= i < |rows| ==> !Takes(rows[i], key)
    ensures r.Some? ==> exists i :: 0 <= i < |rows| && Takes(rows[i], key) && rows[i].value == r.value
                                    && forall j :: i < j < |rows| ==> !Takes(rows[j], key)
  {
    if |rows| == 0 then None
    else
      var init := rows[..|rows| - 1];
      var last := rows[|rows| - 1];
      assert forall i :: 0 <= i < |init| ==> init[i] == rows[i];
      if Takes(last, key) then Some(last.value)
      else
        var r := LastValue(init, key);
        if r.Some? then
          var i :| 0 <= i < |init| && Takes(init[i], key) && init[i].value == r.value
                   && forall j :: i < j < |init| ==> !Takes(init[j], key);
          assert Takes(rows[i], key);
          r
        else r
  }

  /** `get_available_memory_kb`: (available, total), or Unavailable naming the first of the
      two that is missing. */
  function AvailableMemoryKb(rows: seq<MemRow>): (r: Result<(int, int), Error>)
    ensures r.Success? <==> (exists i :: 0 <= i < |rows| && Takes(rows[i], "MemAvailable:"))
                            && (exists i :: 0 <= i < |rows| && Takes(rows[i], "MemTotal:"))
    ensures (forall i :: 0 <= i < |rows| ==> !Takes(rows[i], "MemAvailable:")) ==>
              r == Failure(Unavailable("Available memory not found"))
    ensures (exists i :: 0 <= i < |rows| && Takes(rows[i], "MemAvailable:"))
            && (forall i :: 0 <= i < |rows| ==> !Takes(rows[i], "MemTotal:")) ==>
              r == Failure(Unavailable("Total memory not found"))
    ensures r.Success? ==> Some(r.value.0) == LastValue(rows, "MemAvailable:")
                           && Some(r.value.1) == LastValue(rows, "MemTotal:")
                           && r.value.0 >= 0 && r.value.1 >= 0
  {
    var available := LastValue(rows, "MemAvailable:");
    var total := LastValue(rows, "MemTotal:");
    if available.None? then Failure(Unavailable("Available memory not found"))
    else if total.None? then Failure(Unavailable("Total memory not found"))
    else Success((available.value, total.value))
  }
}
