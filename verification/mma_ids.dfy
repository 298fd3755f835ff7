/** `load_mma_ids`: the agent ids read from the OMS agent's `omsadmin.conf` files. */
module MmaIds {

  import opened Wrappers
  import opened Text

  const GuidKey: string := "AGENT_GUID="

  /** What `load_mma_ids` returns: `nil`, one id, or the list of all ids. An id is itself
      `nil` when its line holds nothing after the key. */
  datatype MmaIds = NoIds | OneId(id: Option<string>) | ManyIds(ids: seq<Option<string>>)

  /** `s.chomp.split("=")[1]` for a line that starts with `AGENT_GUID=`: the text up to the
      next '=', or `nil` when only '=' characters follow the key, because `split` drops
      trailing empty fields. */
  function GuidValue(line: string): (r: Option<string>)
    requires StartsWith(line, GuidKey)
    ensures r.None? <==> forall i :: 0 <= i < |AfterKey(line)| ==> AfterKey(line)[i] == '='
    ensures r.Some? ==> '=' !in r.value && StartsWith(AfterKey(line), r.value)
                        && (|r.value| < |AfterKey(line)| ==> AfterKey(line)[|r.value|] == '=')
  {
    var rest := AfterKey(line);
    if forall i :: 0 <= i < |rest| ==> rest[i] == '=' then None
    else Some(rest[..IndexOf(rest, '=')])
  }

  /** The chomped line after `AGENT_GUID=`; the key's own '=' is never chomped. */
  function AfterKey(line: string): string
    requires StartsWith(line, GuidKey)
  {
    assert line[|GuidKey| - 1] == GuidKey[|GuidKey| - 1] == '=';
    Chomp(line)[|GuidKey|..]
  }

  /** `AGENT_GUID=` with nothing after it yields a `nil` id. */
  lemma EmptyGuidIsNil()
    ensures FirstGuid([GuidKey + "\n"]) == Some(None)
  {
    var line := GuidKey + "\n";
    assert line[..|GuidKey|] == GuidKey;
    assert Chomp(line) == GuidKey;
  }

  /** Line `i` is the first that starts with `AGENT_GUID=`. */
  predicate FirstKeyLine(lines: seq<string>, i: int) {
    && 0 <= i < |lines| && StartsWith(lines[i], GuidKey)
    && forall j :: 0 <= j < i ==> !StartsWith(lines[j], GuidKey)
  }

  /** The value of the first `AGENT_GUID=` line of a file, if any (the loop `break`s there). */
  function FirstGuid(lines: seq<string>): (r: Option<Option<string>>)
    ensures r.None? <==> forall i :: 0 <= i < |lines| ==> !StartsWith(lines[i], GuidKey)
    ensures r.Some? ==> exists i :: FirstKeyLine(lines, i) && r.value == GuidValue(lines[i])
  {
    if |lines| == 0 then None
    else if StartsWith(lines[0], GuidKey) then
      assert FirstKeyLine(lines, 0);
      Some(GuidValue(lines[0]))
    else
      var tail := lines[1..];
      var r := FirstGuid(tail);
      assert forall i :: 1 <= i < |lines| ==> lines[i] == tail[i - 1];
      assert r.Some? ==> exists i :: FirstKeyLine(lines, i) && r.value == GuidValue(lines[i]) by {
        if r.Some? {
          var i :| FirstKeyLine(tail, i) && r.value == GuidValue(tail[i]);
          assert FirstKeyLine(lines, i + 1);
        }
      }
      r
  }

  /** One id per file that has an `AGENT_GUID=` line, in file order. */
  function GuidsOf(files: seq<seq<string>>): (ids: seq<Option<string>>)
    ensures |ids| <= |files|
  {
    if |files| == 0 then []
    else
      var rest := GuidsOf(files[1..]);
      match FirstGuid(files[0])
      case None => rest
      case Some(id) => [id] + rest
  }

  /** The ids of files read one after another are the ids of each part in turn. */
  lemma {:induction false} GuidsOfAppend(a: seq<seq<string>>, b: seq<seq<string>>)
    ensures GuidsOf(a + b) == GuidsOf(a) + GuidsOf(b)
  {
    if |a| == 0 {
      assert a + b == b;
    } else {
      assert (a + b)[0] == a[0];
      assert (a + b)[1..] == a[1..] + b;
      GuidsOfAppend(a[1..], b);
    }
  }

  /** One file yields its first `AGENT_GUID=` value, or nothing when it has no such line. */
  lemma GuidsOfSingle(f: seq<string>)
    ensures GuidsOf([f]) == if FirstGuid(f).Some? then [FirstGuid(f).value] else []
  {
    assert [f][1..] == [];
  }

  /** Lines 404-411: no id gives `nil`, one id is returned alone, more are returned as a list. */
  function Collapse(ids: seq<Option<string>>): MmaIds
  {
    if |ids| == 0 then NoIds
    else if |ids| == 1 then OneId(ids[0])
    else ManyIds(ids)
  }

  /** The ids a collapsed result stands for. */
  function Expand(m: MmaIds): seq<Option<string>>
  {
    match m
    case NoIds => []
    case OneId(id) => [id]
    case ManyIds(ids) => ids
  }

  /** A list result always holds at least two ids. */
  predicate WellFormed(m: MmaIds) {
    m.ManyIds? ==> |m.ids| >= 2
  }

  /** Collapsing loses nothing: the ids can be read back, and a well-formed result is the
      collapse of the ids it stands for. */
  lemma CollapseRoundTrip(ids: seq<Option<string>>, m: MmaIds)
    ensures WellFormed(Collapse(ids)) && Expand(Collapse(ids)) == ids
    ensures WellFormed(m) ==> Collapse(Expand(m)) == m
  {
  }

  /** `load_mma_ids`: the multi-homing files (one per workspace) when there are any,
      otherwise the single legacy file. */
  function LoadMmaIds(multihome: seq<seq<string>>, legacy: seq<seq<string>>): (m: MmaIds)
    ensures WellFormed(m)
    ensures Expand(m) == GuidsOf(if |multihome| > 0 then multihome else legacy)
  {
    CollapseRoundTrip(GuidsOf(if |multihome| > 0 then multihome else legacy), NoIds);
    Collapse(GuidsOf(if |multihome| > 0 then multihome else legacy))
  }

  /** A single workspace whose conf has `AGENT_GUID=` with no value loads as one `nil` id,
      which `get_mma_ids` reports as no ids found. */
  lemma EmptyGuidLoadsNil(legacy: seq<seq<string>>)
    ensures LoadMmaIds([[GuidKey + "\n"]], legacy) == OneId(None)
  {
    EmptyGuidIsNil();
    GuidsOfSingle([GuidKey + "\n"]);
  }

  /** A conf line `AGENT_GUID=<g>` yields `<g>` for any non-empty `<g>` without '=' or
      line breaks. */
  lemma GuidLineRoundTrip(g: string)
    requires |g| > 0 && '=' !in g && '\n' !in g && '\r' !in g
    ensures FirstGuid([GuidKey + g + "\n"]) == Some(Some(g))
  {
    var line := GuidKey + g + "\n";
    assert StartsWith(line, GuidKey) by {
      assert line[..|GuidKey|] == GuidKey;
    }
    assert line[|line| - 2] == g[|g| - 1];
    assert Chomp(line) == GuidKey + g;
    var rest := Chomp(line)[|GuidKey|..];
    assert rest == g;
    assert rest[0] != '=' by {
      assert g[0] in g;
    }
    IndexOfAfter(g, [], '=');
    assert g + [] == g;
  }
}
