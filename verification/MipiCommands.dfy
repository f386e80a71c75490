/** The panel's initialization commands: records of a length, a delay and data bytes, parsed in place. */
module MipiCommands {
  import opened Words

  /** A record of the device tree: a delay in milliseconds and the bytes of a command. */
  datatype Record = Record(delay: byte, data: seq<byte>)

  datatype Action = Write(data: seq<byte>) | Sleep(ms: nat)

  predicate Encodable(r: Record) {
    |r.data| <= 254
  }

  /** The length byte counts the delay and the data. */
  function Encode(records: seq<Record>): seq<byte>
    requires forall r :: r in records ==> Encodable(r)
  {
    if records == [] then [] else EncodeOne(records[0]) + Encode(records[1..])
  }

  function EncodeOne(r: Record): seq<byte>
    requires Encodable(r)
  {
    [1 + |r.data|, r.delay] + r.data
  }

  function ActionsOf(data: seq<byte>, delay: byte): seq<Action> {
    (if data == [] then [] else [Write(data)]) + if delay == 0 then [] else [Sleep(delay)]
  }

  function Actions(records: seq<Record>): seq<Action> {
    if records == [] then [] else ActionsOf(records[0].data, records[0].delay) + Actions(records[1..])
  }

  /** The data length the parser takes from a length byte: one less, in 8 bits. */
  function DataLen(len: byte): byte {
    if len == 0 then 255 else len - 1
  }

  /** The record at an index lies inside the array. */
  predicate Inside(cmd: seq<byte>, i: nat) {
    i + 2 <= |cmd| && i + 2 + DataLen(cmd[i]) <= |cmd|
  }

  /** What the parser does from an index on, if it never reads outside the array. */
  function Parse(cmd: seq<byte>, i: nat): Option<seq<Action>>
    decreases |cmd| - i
  {
    if i >= |cmd| then Some([])
    else if !Inside(cmd, i) then None
    else
      var rest := Parse(cmd, i + cmd[i] + 1);
      if rest == None then None else Some(ActionsOf(cmd[i + 2..i + 2 + DataLen(cmd[i])], cmd[i + 1]) + rest.value)
  }

  function Prepend(log: seq<Action>, rest: Option<seq<Action>>): Option<seq<Action>> {
    if rest == None then None else Some(log + rest.value)
  }

  lemma ParseOne(cmd: seq<byte>, i: nat, log: seq<Action>)
    requires i < |cmd|
    ensures !Inside(cmd, i) ==> Parse(cmd, i) == None
    ensures Inside(cmd, i) ==>
              var actions := ActionsOf(cmd[i + 2..i + 2 + DataLen(cmd[i])], cmd[i + 1]);
              Prepend(log, Parse(cmd, i)) == Prepend(log + actions, Parse(cmd, i + cmd[i] + 1))
  {
    if Inside(cmd, i) && Parse(cmd, i) != None {
      var actions := ActionsOf(cmd[i + 2..i + 2 + DataLen(cmd[i])], cmd[i + 1]);
      var rest := Parse(cmd, i + cmd[i] + 1).value;
      assert log + (actions + rest) == log + actions + rest;
    }
  }

  /**
   `hpm_display_mipi_panel_cmd_init`. It stops where it would read outside the array; otherwise it issues
   what `Parse` says, and waits two milliseconds at the end.
   */
  method PanelCmdInit(cmd: array<byte>) returns (log: seq<Action>, outside: bool)
    ensures outside <==> Parse(cmd[..], 0) == None
    ensures !outside ==> log == Parse(cmd[..], 0).value + [Sleep(2)]
  {
    hide Parse;
    log, outside := [], false;
    ghost var whole := cmd[..];
    var i := 0;
    while i < cmd.Length
      invariant 0 <= i
      invariant Prepend([], Parse(whole, 0)) == Prepend(log, Parse(whole, i))
      decreases cmd.Length - i
    {
      ParseOne(whole, i, log);
      if i + 1 >= cmd.Length {
        outside := true;
        return;
      }
      var cmdLen: byte := if cmd[i] == 0 then 255 else cmd[i] - 1;
      var delay := cmd[i + 1];
      var start := i + 2;
      if start + cmdLen > cmd.Length {
        outside := true;
        return;
      }
      ghost var was := log;
      var data := cmd[start..start + cmdLen];
      i := i + cmd[i] + 1;
      if cmdLen != 0 {
        log := log + [Write(data)];
      }
      if delay != 0 {
        log := log + [Sleep(delay)];
      }
      assert log == was + ActionsOf(data, delay);
    }
    ParseEnd(whole, i);
    assert [] + Parse(whole, 0).value == Parse(whole, 0).value && log + [] == log;
    log := log + [Sleep(2)];
  }

  lemma ParseEnd(cmd: seq<byte>, i: nat)
    requires i >= |cmd|
    ensures Parse(cmd, i) == Some([])
  {
  }

  lemma ParseStep(cmd: seq<byte>, i: nat)
    requires i < |cmd|
    ensures Parse(cmd, i) ==
              if Inside(cmd, i) then
                Prepend(ActionsOf(cmd[i + 2..i + 2 + DataLen(cmd[i])], cmd[i + 1]), Parse(cmd, i + cmd[i] + 1))
              else None
  {
  }

  // ----- Round trip

  /** Parsing behind a prefix is parsing what follows it. */
  lemma {:induction false} ParseBehind(before: seq<byte>, cmd: seq<byte>, i: nat)
    ensures Parse(before + cmd, |before| + i) == Parse(cmd, i)
    decreases |cmd| - i
  {
    hide Parse;
    var all, k := before + cmd, |before| + i;
    if i >= |cmd| {
      ParseEnd(cmd, i);
      ParseEnd(all, k);
    } else {
      ParseStep(cmd, i);
      ParseStep(all, k);
      assert all[k] == cmd[i];
      if Inside(cmd, i) {
        SliceBehind(before, cmd, i + 1, 0);
        SliceBehind(before, cmd, i + 2, DataLen(cmd[i]));
        ParseBehind(before, cmd, i + cmd[i] + 1);
      }
    }
  }

  lemma SliceBehind(before: seq<byte>, cmd: seq<byte>, i: nat, n: nat)
    requires i + n <= |cmd|
    ensures (before + cmd)[|before| + i..|before| + i + n] == cmd[i..i + n]
    ensures i < |cmd| ==> (before + cmd)[|before| + i] == cmd[i]
  {
  }

  /** Parsing the encoding of records issues exactly their writes and delays, in order, and stays inside. */
  lemma {:induction false} RoundTrip(records: seq<Record>)
    requires forall r :: r in records ==> Encodable(r)
    ensures Parse(Encode(records), 0) == Some(Actions(records))
  {
    hide Parse;
    if records == [] {
      ParseEnd([], 0);
    } else {
      var r, rest := records[0], Encode(records[1..]);
      var one := EncodeOne(r);
      RoundTrip(records[1..]);
      ParseBehind(one, rest, 0);
      FirstRecord(r, rest);
      ParseStep(one + rest, 0);
    }
  }

  /** One record: its data are written if there are any, and then it waits if it has a delay. */
  lemma OneRecord(r: Record)
    requires Encodable(r)
    ensures Parse(EncodeOne(r), 0) ==
              Some(if r.data == [] && r.delay == 0 then []
                   else if r.data == [] then [Sleep(r.delay)]
                   else if r.delay == 0 then [Write(r.data)]
                   else [Write(r.data), Sleep(r.delay)])
  {
    hide Parse;
    var one := EncodeOne(r);
    assert one + [] == one;
    FirstRecord(r, []);
    ParseStep(one, 0);
    ParseEnd(one, |one|);
    assert ActionsOf(r.data, r.delay) + [] == ActionsOf(r.data, r.delay);
    var write: seq<Action>, sleep: seq<Action> := [Write(r.data)], [Sleep(r.delay)];
    assert write + [] == write && [] + sleep == sleep && write + sleep == [Write(r.data), Sleep(r.delay)];
  }

  lemma FirstRecord(r: Record, rest: seq<byte>)
    requires Encodable(r)
    ensures var all := EncodeOne(r) + rest;
            && Inside(all, 0) && all[0] == |EncodeOne(r)| - 1 && DataLen(all[0]) == |r.data|
            && all[1] == r.delay && all[2..2 + |r.data|] == r.data
  {
    var all := EncodeOne(r) + rest;
    assert all[0] == 1 + |r.data| && all[1] == r.delay;
  }

  /** The length bytes the parser comes to are not zero. */
  predicate LengthsCount(cmd: seq<byte>, i: nat)
    decreases |cmd| - i
  {
    i >= |cmd| || (cmd[i] > 0 && LengthsCount(cmd, i + cmd[i] + 1))
  }

  /**
   With no zero length byte, the parser stays inside the array exactly if the array is an encoding. (A zero
   length byte is taken as 255 bytes of data but skips only itself.)
   */
  lemma InsideIffEncoding(cmd: seq<byte>)
    requires LengthsCount(cmd, 0)
    ensures Parse(cmd, 0) != None <==>
              exists records: seq<Record> :: (forall r :: r in records ==> Encodable(r)) && cmd == Encode(records)
  {
    if Parse(cmd, 0) != None {
      var records := Decoded(cmd);
      assert cmd == Encode(records);
    }
    forall records: seq<Record> | (forall r :: r in records ==> Encodable(r)) && cmd == Encode(records)
      ensures Parse(cmd, 0) != None
    {
      RoundTrip(records);
    }
  }

  /** From record to record the parser comes from index `i` to index `j`. */
  predicate Reaches(cmd: seq<byte>, i: nat, j: nat)
    decreases |cmd| - i
  {
    i == j || (i < |cmd| && Inside(cmd, i) && Reaches(cmd, i + cmd[i] + 1, j))
  }

  /** What is issued on the way comes first. */
  lemma {:induction false} ParseUpTo(cmd: seq<byte>, i: nat, j: nat) returns (before: seq<Action>)
    requires Reaches(cmd, i, j)
    ensures Parse(cmd, i) == Prepend(before, Parse(cmd, j))
    decreases |cmd| - i
  {
    hide Parse;
    if i == j {
      before := [];
      assert Parse(cmd, j) == None || [] + Parse(cmd, j).value == Parse(cmd, j).value;
    } else {
      ParseStep(cmd, i);
      var actions := ActionsOf(cmd[i + 2..i + 2 + DataLen(cmd[i])], cmd[i + 1]);
      var rest := ParseUpTo(cmd, i + cmd[i] + 1, j);
      before := actions + rest;
      assert Parse(cmd, j) == None || actions + (rest + Parse(cmd, j).value) == before + Parse(cmd, j).value;
    }
  }

  /**
   A zero length byte that the parser comes to makes it leave the array, or write 255 bytes, wait as the next
   byte says, and go on just one byte further.
   */
  lemma ZeroLengthReadsOn(cmd: seq<byte>, i: nat) returns (before: seq<Action>)
    requires Reaches(cmd, 0, i) && i < |cmd| && cmd[i] == 0
    ensures |cmd| < i + 257 ==> Parse(cmd, 0) == None
    ensures |cmd| >= i + 257 ==>
              Parse(cmd, 0) == Prepend(before + [Write(cmd[i + 2..i + 257])] + (if cmd[i + 1] == 0 then [] else [Sleep(cmd[i + 1])]),
                                       Parse(cmd, i + 1))
  {
    hide Parse, Reaches;
    before := ParseUpTo(cmd, 0, i);
    ParseStep(cmd, i);
    if |cmd| >= i + 257 && Parse(cmd, i + 1) != None {
      var rest := Parse(cmd, i + 1).value;
      var actions := ActionsOf(cmd[i + 2..i + 257], cmd[i + 1]);
      var sleep := if cmd[i + 1] == 0 then [] else [Sleep(cmd[i + 1])];
      assert cmd[i + 2..i + 257] != [];
      assert before + (actions + rest) == before + [Write(cmd[i + 2..i + 257])] + sleep + rest;
    }
  }

  lemma {:induction false} Decoded(cmd: seq<byte>) returns (records: seq<Record>)
    requires LengthsCount(cmd, 0) && Parse(cmd, 0) != None
    ensures (forall r :: r in records ==> Encodable(r)) && cmd == Encode(records)
    decreases |cmd|
  {
    if cmd == [] {
      records := [];
    } else {
      hide Parse, LengthsCount, Encode;
      var r, rest := FirstOf(cmd);
      var more := Decoded(rest);
      records := [r] + more;
      EncodeMore(r, more);
    }
  }

  /** The first record of an array that the parser stays inside. */
  lemma FirstOf(cmd: seq<byte>) returns (r: Record, rest: seq<byte>)
    requires cmd != [] && LengthsCount(cmd, 0) && Parse(cmd, 0) != None
    ensures Encodable(r) && cmd == EncodeOne(r) + rest && |rest| < |cmd|
    ensures LengthsCount(rest, 0) && Parse(rest, 0) != None
  {
    hide Parse;
    ParseStep(cmd, 0);
    var n := cmd[0] as int + 1;
    var one := cmd[..n];
    rest := cmd[n..];
    assert cmd == one + rest;
    r := Record(cmd[1], cmd[2..n]);
    assert cmd[2..n] == one[2..] && one == [one[0], one[1]] + one[2..];
    ParseBehind(one, rest, 0);
    LengthsBehind(one, rest, 0);
  }

  lemma EncodeMore(r: Record, more: seq<Record>)
    requires Encodable(r) && forall m :: m in more ==> Encodable(m)
    ensures Encode([r] + more) == EncodeOne(r) + Encode(more)
  {
    assert ([r] + more)[1..] == more;
  }

  lemma {:induction false} LengthsBehind(before: seq<byte>, cmd: seq<byte>, i: nat)
    ensures LengthsCount(before + cmd, |before| + i) <==> LengthsCount(cmd, i)
    decreases |cmd| - i
  {
    if i < |cmd| {
      assert (before + cmd)[|before| + i] == cmd[i];
      if cmd[i] > 0 {
        LengthsBehind(before, cmd, i + cmd[i] + 1);
      }
    }
  }
}
