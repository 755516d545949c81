/**
  The texts of commands: the id printed in front of a command and cut out of its response
  (src/mqtt/MqttService.cc, src/mqtt/IotaMqttServiceImpl.cc), and the template a command's parameters are
  put into (transform_command in src/rest/command_handle.cc).
 */
module CommandText {

  const TAG := "cmdid|"
  const SLOT := "%s"
  const RAW := "@@RAW@@"

  predicate MatchAt(s: string, pattern: string, k: nat) {
    k + |pattern| <= |s| && s[k..k + |pattern|] == pattern
  }

  /** Where a pattern is first found from a position on; -1 when nowhere. */
  function Find(s: string, pattern: string, from: nat): (k: int)
    requires from <= |s|
    ensures k == -1 || from <= k <= |s|
    ensures k >= 0 ==> MatchAt(s, pattern, k)
    ensures forall j: nat :: from <= j && MatchAt(s, pattern, j) ==> k >= 0 && k <= j
    decreases |s| - from
  {
    if MatchAt(s, pattern, from) then from
    else if from == |s| then -1
    else Find(s, pattern, from + 1)
  }

  // ---------- command ids ----------

  datatype Extraction = Missing | Extracted(payload: string, id: string)

  /** The payload a command is published with. */
  function Published(id: string, command: string): string {
    TAG + id + "#" + command
  }

  /** What is before the first hash. */
  function BeforeHash(s: string): (r: string)
    ensures |r| <= |s| && s[..|r|] == r && '#' !in r
    ensures |r| < |s| ==> s[|r|] == '#'
  {
    if s == "" || s[0] == '#' then "" else [s[0]] + BeforeHash(s[1..])
  }

  /** What is after the first hash. */
  function AfterHash(s: string): string {
    var n := |BeforeHash(s)|;
    if n < |s| then s[n + 1..] else ""
  }

  /** Scanning from the left, the id is cut out at the first tag. */
  function Cut(s: string, tag: string): Extraction {
    if MatchAt(s, tag, 0) then Extracted(AfterHash(s[|tag|..]), BeforeHash(s[|tag|..]))
    else if s == "" then Missing
    else match Cut(s[1..], tag)
      case Missing => Missing
      case Extracted(payload, id) => Extracted([s[0]] + payload, id)
  }

  /** The id runs from the tag to the next hash, or to the end, and is removed with both. */
  method ExtractCommandId(payload: string) returns (r: Extraction)
    ensures r == Cut(payload, "cmdid|")
  {
    var cmdIdPos := Find(payload, TAG, 0);
    CutAtFound(payload, TAG);
    if cmdIdPos == -1 {
      return Missing;
    }
    var separator := 0;
    var cmdId := payload[cmdIdPos + 6..];
    var endPos := Find(cmdId, "#", 0);
    HashFound(cmdId, endPos);
    var outId;
    if endPos == -1 {
      outId := cmdId;
    } else {
      outId := cmdId[..endPos];
      separator := 1;
    }
    var outPayload := payload[..cmdIdPos] + payload[cmdIdPos + 6 + |outId| + separator..];
    assert payload[cmdIdPos + 6 + |outId| + separator..] == cmdId[|outId| + separator..];
    r := Extracted(outPayload, outId);
  }

  lemma HashFound(s: string, k: int)
    requires k == Find(s, "#", 0)
    ensures BeforeHash(s) == if k == -1 then s else s[..k]
    ensures AfterHash(s) == if k == -1 then "" else s[k + 1..]
  {
    var r := BeforeHash(s);
    if |r| < |s| {
      assert MatchAt(s, "#", |r|);
    }
    if k >= 0 {
      assert s[k] == s[k..k + 1][0] == '#';
      assert forall i :: 0 <= i < |r| ==> r[i] == s[i];
      assert |r| <= k;
    }
  }

  lemma MatchShift(s: string, pattern: string, i: nat, j: nat)
    requires i <= |s|
    ensures MatchAt(s[i..], pattern, j) <==> MatchAt(s, pattern, i + j)
  {
    if i + j + |pattern| <= |s| {
      assert s[i..][j..j + |pattern|] == s[i + j..i + j + |pattern|];
    }
  }

  lemma {:induction false} NothingToCut(s: string, tag: string)
    requires forall j: nat :: !MatchAt(s, tag, j)
    ensures Cut(s, tag) == Missing
  {
    if s != "" {
      forall j: nat ensures !MatchAt(s[1..], tag, j) {
        MatchShift(s, tag, 1, j);
      }
      NothingToCut(s[1..], tag);
    }
  }

  /** The extraction at a tag's place. */
  function Taken(s: string, tag: string, k: nat): Extraction
    requires k + |tag| <= |s|
  {
    Extracted(s[..k] + AfterHash(s[k + |tag|..]), BeforeHash(s[k + |tag|..]))
  }

  lemma TakenShift(s: string, tag: string, k: nat)
    requires k > 0 && k + |tag| <= |s|
    ensures var t := Taken(s[1..], tag, k - 1);
            Taken(s, tag, k) == Extracted([s[0]] + t.payload, t.id)
  {
    SliceShift(s, k, |tag|);
    Associate([s[0]], s[1..][..k - 1], AfterHash(s[k + |tag|..]));
  }

  lemma SliceShift(s: string, k: nat, n: nat)
    requires k > 0 && k + n <= |s|
    ensures s[1..][k - 1 + n..] == s[k + n..]
    ensures [s[0]] + s[1..][..k - 1] == s[..k]
  {
  }

  lemma Associate(a: string, b: string, c: string)
    ensures a + (b + c) == a + b + c
  {
  }

  /** The first tag decides. */
  lemma {:induction false} CutAt(s: string, tag: string, k: nat)
    requires MatchAt(s, tag, k) && forall j: nat :: j < k ==> !MatchAt(s, tag, j)
    ensures Cut(s, tag) == Taken(s, tag, k)
    decreases k
  {
    if k > 0 {
      MatchShift(s, tag, 1, k - 1);
      forall j: nat | j < k - 1 ensures !MatchAt(s[1..], tag, j) {
        MatchShift(s, tag, 1, j);
      }
      CutAt(s[1..], tag, k - 1);
      TakenShift(s, tag, k);
      assert !MatchAt(s, tag, 0);
    } else {
      assert s[..0] == "";
    }
  }

  lemma CutAtFound(s: string, tag: string)
    ensures var k := Find(s, tag, 0);
            Cut(s, tag) == if k == -1 then Missing else Taken(s, tag, k)
  {
    var k := Find(s, tag, 0);
    if k == -1 {
      NothingToCut(s, tag);
    } else {
      CutAt(s, tag, k);
    }
  }

  /** The first character of a tag does not come again in it. */
  predicate Starts(tag: string) {
    tag != "" && forall i :: 0 < i < |tag| ==> tag[i] != tag[0]
  }

  /** Then a tag cannot start before another one and reach into it. */
  lemma TagsDoNotOverlap(s: string, tag: string, j: nat, k: nat)
    requires Starts(tag) && j < k < j + |tag| && MatchAt(s, tag, k)
    ensures !MatchAt(s, tag, j)
  {
    CharOfMatch(s, tag, k, 0);
    if MatchAt(s, tag, j) {
      CharOfMatch(s, tag, j, k - j);
      assert false;
    }
  }

  lemma CharOfMatch(s: string, pattern: string, k: nat, i: nat)
    requires MatchAt(s, pattern, k) && i < |pattern|
    ensures s[k + i] == pattern[i]
  {
    assert s[k..k + |pattern|][i] == pattern[i];
  }

  lemma CutBehind(prefix: string, tag: string, rest: string)
    requires Starts(tag) && forall j: nat :: !MatchAt(prefix, tag, j)
    ensures Cut(prefix + tag + rest, tag) == Extracted(prefix + AfterHash(rest), BeforeHash(rest))
  {
    var s, k := prefix + tag + rest, |prefix|;
    assert s[k..k + |tag|] == tag;
    forall j: nat | j < k ensures !MatchAt(s, tag, j) {
      if j + |tag| <= k {
        assert s[j..j + |tag|] == prefix[j..j + |tag|];
        assert !MatchAt(prefix, tag, j);
      } else {
        TagsDoNotOverlap(s, tag, j, k);
      }
    }
    CutAt(s, tag, k);
    assert s[..k] == prefix && s[k + |tag|..] == rest;
  }

  lemma HashBehind(id: string, suffix: string)
    requires '#' !in id
    ensures BeforeHash(id + "#" + suffix) == id && AfterHash(id + "#" + suffix) == suffix
    ensures BeforeHash(id) == id && AfterHash(id) == ""
  {
    var s := id + "#" + suffix;
    var r := BeforeHash(s);
    assert s[|id|] == '#' && forall i :: 0 <= i < |id| ==> s[i] == id[i];
    assert forall i :: 0 <= i < |r| ==> r[i] == s[i];
    assert |r| == |id|;
  }

  lemma InsertedBehind(prefix: string, tag: string, id: string, suffix: string)
    requires Starts(tag) && (forall j: nat :: !MatchAt(prefix, tag, j)) && '#' !in id
    ensures Cut(prefix + tag + (id + "#" + suffix), tag) == Extracted(prefix + suffix, id)
    ensures Cut(prefix + tag + id, tag) == Extracted(prefix, id)
  {
    CutBehind(prefix, tag, id + "#" + suffix);
    CutBehind(prefix, tag, id);
    HashBehind(id, suffix);
  }

  /** An id without a hash, put anywhere behind a text without a tag, is cut out again exactly, with a hash
      and more text behind it or at the end. */
  lemma ExtractInserted(prefix: string, id: string, suffix: string)
    requires (forall j: nat :: !MatchAt(prefix, "cmdid|", j)) && '#' !in id
    ensures Cut(prefix + "cmdid|" + (id + "#" + suffix), "cmdid|") == Extracted(prefix + suffix, id)
    ensures Cut(prefix + "cmdid|" + id, "cmdid|") == Extracted(prefix, id)
  {
    InsertedBehind(prefix, TAG, id, suffix);
  }

  /** The id and the command come back from the published payload if and only if the id has no hash. */
  lemma PublishedComesBack(id: string, command: string)
    ensures Published(id, command) == "cmdid|" + id + "#" + command
    ensures Cut(Published(id, command), "cmdid|") == Extracted(command, id) <==> '#' !in id
  {
    TaggedComesBack(TAG, id, command);
    Associate(TAG, id, "#");
    Associate(TAG, id + "#", command);
  }

  lemma TaggedComesBack(tag: string, id: string, command: string)
    requires Starts(tag)
    ensures Cut(tag + (id + "#" + command), tag) == Extracted(command, id) <==> '#' !in id
  {
    var rest := id + "#" + command;
    CutBehind("", tag, rest);
    assert "" + tag + rest == tag + rest && "" + AfterHash(rest) == AfterHash(rest);
    if '#' !in id {
      HashBehind(id, command);
    }
  }

  /** Nothing is extracted if and only if there is no tag; and what is extracted was in the payload: put back
      at some place, with the hash or at the end without, it makes the payload. */
  lemma ExtractedWasThere(s: string, tag: string)
    ensures Cut(s, tag) == Missing <==> forall j: nat :: !MatchAt(s, tag, j)
    ensures Cut(s, tag) != Missing ==>
              var p, id := Cut(s, tag).payload, Cut(s, tag).id;
              '#' !in id && exists k: nat :: k <= |p| && PutBack(s, tag, p, id, k)
  {
    var k := Find(s, tag, 0);
    CutAtFound(s, tag);
    if k >= 0 {
      TakenPutBack(s, tag, k);
    }
  }

  lemma TakenPutBack(s: string, tag: string, k: nat)
    requires MatchAt(s, tag, k)
    ensures var t := Taken(s, tag, k);
            k <= |t.payload| && PutBack(s, tag, t.payload, t.id, k)
  {
    var rest := s[k + |tag|..];
    var t := Taken(s, tag, k);
    assert s == s[..k] + tag + rest;
    assert t.payload[..k] == s[..k] && t.payload[k..] == AfterHash(rest);
    if |t.id| < |rest| {
      assert rest == t.id + "#" + AfterHash(rest);
    } else {
      assert rest == t.id && t.payload == s[..k];
    }
  }

  predicate PutBack(s: string, tag: string, p: string, id: string, k: nat)
    requires k <= |p|
  {
    s == p[..k] + tag + (id + "#" + p[k..]) || (k == |p| && s == p + tag + id)
  }

  // ---------- templates ----------

  function Count(s: string, c: char): nat {
    if s == "" then 0 else (if s[0] == c then 1 else 0) + Count(s[1..], c)
  }

  function Split(s: string, c: char): (ps: seq<string>)
    ensures |ps| > 0
  {
    if s == "" then [""]
    else
      var ps := Split(s[1..], c);
      if s[0] == c then [""] + ps else [[s[0]] + ps[0]] + ps[1..]
  }

  function Join(ps: seq<string>, c: char): string
    requires ps != []
  {
    if |ps| == 1 then ps[0] else ps[0] + [c] + Join(ps[1..], c)
  }

  predicate SlotFirst(t: string) {
    MatchAt(t, SLOT, 0)
  }

  /** The texts around the slots of a template, read from the left. */
  function Literals(t: string): (ls: seq<string>)
    ensures |ls| > 0
  {
    if t == "" then [""]
    else if SlotFirst(t) then [""] + Literals(t[2..])
    else
      var ls := Literals(t[1..]);
      [[t[0]] + ls[0]] + ls[1..]
  }

  function Slots(t: string): nat {
    |Literals(t)| - 1
  }

  /** Literals and texts in turn: a literal first and last. */
  function Interleave(ls: seq<string>, ps: seq<string>): string
    requires 0 < |ls| <= |ps| + 1
  {
    if |ls| == 1 then ls[0] else ls[0] + ps[0] + Interleave(ls[1..], ps[1..])
  }

  datatype Body = Malformed | Body(text: string)

  /** A template is refused for a command's parameters. */
  predicate Refused(commandValue: string, updateCommandValue: string) {
    && commandValue != "" && commandValue != RAW
    && Count(commandValue, '%') > |Split(updateCommandValue, '|')|
  }

  /** A template filled with the parameters of a command: refused when it has more percent signs than
      there are parameters. */
  method TransformCommand(commandValue: string, updateCommandValue: string) returns (r: Body)
    ensures commandValue == "" || commandValue == "@@RAW@@" ==> r == Body(updateCommandValue)
    ensures commandValue != "" && commandValue != "@@RAW@@" ==>
              var params := Split(updateCommandValue, '|');
              && (r == Malformed <==> Refused(commandValue, updateCommandValue))
              && (r.Body? ==> Slots(commandValue) <= |params| && r.text == Interleave(Literals(commandValue), params))
  {
    if commandValue == "" || commandValue == RAW {
      return Body(updateCommandValue);
    }
    var params := Split(updateCommandValue, '|');
    var count := Count(commandValue, '%');
    SlotsCounted(commandValue);
    if count == 0 {
      OneLiteral(commandValue);
      return Body(commandValue);
    }
    if count > |params| {
      return Malformed;
    }
    var result := Fill(commandValue, params);
    return Body(result);
  }

  /** What is still to be written from a place of the template on. */
  ghost function ToWrite(t: string, from: nat, params: seq<string>, i: nat): string
    requires from <= |t| && i + Slots(t[from..]) <= |params|
  {
    Interleave(Literals(t[from..]), params[i..])
  }

  /** The loop over the slots: what it has put in is not looked at again. */
  method Fill(commandValue: string, params: seq<string>) returns (result: string)
    requires Slots(commandValue) <= |params|
    ensures result == Interleave(Literals(commandValue), params)
  {
    result := "";
    var found1, found2 := 0, Find(commandValue, SLOT, 0);
    var i := 0;
    assert commandValue[0..] == commandValue && params[0..] == params;
    ghost var whole := ToWrite(commandValue, 0, params, 0);
    while found2 != -1
      invariant 0 <= found1 <= |commandValue| && found2 == Find(commandValue, SLOT, found1)
      invariant i + Slots(commandValue[found1..]) <= |params|
      invariant whole == result + ToWrite(commandValue, found1, params, i)
      decreases |commandValue| - found1
    {
      NextSlot(commandValue, found1, params, i);
      Regroup(result, commandValue[found1..found2], params[i], ToWrite(commandValue, found2 + 2, params, i + 1));
      result := result + commandValue[found1..found2];
      result := result + params[i];
      i := i + 1;
      found1 := found2 + 2;
      found2 := Find(commandValue, SLOT, found1);
    }
    NoSlot(commandValue, found1);
    result := result + commandValue[found1..];
  }

  lemma Regroup(a: string, b: string, c: string, d: string)
    ensures a + (b + c + d) == (a + b) + c + d
  {
  }

  /** Up to the next slot everything is one literal. */
  lemma NextSlot(t: string, from: nat, params: seq<string>, i: nat)
    requires from <= |t| && Find(t, SLOT, from) >= 0
    requires i + Slots(t[from..]) <= |params|
    ensures var k := Find(t, SLOT, from);
            && i + 1 + Slots(t[k + 2..]) <= |params|
            && ToWrite(t, from, params, i) == t[from..k] + params[i] + ToWrite(t, k + 2, params, i + 1)
  {
    var k := Find(t, SLOT, from);
    LiteralsUpTo(t, from, k);
    assert Literals(t[from..])[1..] == Literals(t[k + 2..]) && params[i..][1..] == params[i + 1..];
  }

  lemma {:induction false} LiteralsUpTo(t: string, from: nat, k: nat)
    requires from <= k && MatchAt(t, SLOT, k) && forall j: nat :: from <= j < k ==> !MatchAt(t, SLOT, j)
    ensures Literals(t[from..]) == [t[from..k]] + Literals(t[k + 2..])
    decreases k - from
  {
    MatchShift(t, SLOT, from, 0);
    if from == k {
      assert t[from..k] == "" && t[from..][2..] == t[k + 2..];
    } else {
      LiteralsUpTo(t, from + 1, k);
      assert t[from..][1..] == t[from + 1..];
      assert [t[from]] + t[from + 1..k] == t[from..k];
      assert !SlotFirst(t[from..]);
    }
  }

  lemma {:induction false} NoSlot(t: string, from: nat)
    requires from <= |t| && forall j: nat :: from <= j ==> !MatchAt(t, SLOT, j)
    ensures Literals(t[from..]) == [t[from..]]
    decreases |t| - from
  {
    if from < |t| {
      MatchShift(t, SLOT, from, 0);
      assert !MatchAt(t, SLOT, from);
      NoSlot(t, from + 1);
      assert t[from..][1..] == t[from + 1..];
      assert [t[from]] + t[from + 1..] == t[from..];
    }
  }

  /** Every slot has a percent sign. */
  lemma {:induction false} SlotsCounted(t: string)
    ensures Slots(t) <= Count(t, '%')
  {
    if t != "" {
      if SlotFirst(t) {
        CharOfMatch(t, SLOT, 0, 0);
        SlotsCounted(t[2..]);
        assert t[1..][1..] == t[2..];
      } else {
        SlotsCounted(t[1..]);
      }
    }
  }

  predicate PercentsAreSlots(t: string) {
    forall i :: 0 <= i < |t| && t[i] == '%' ==> MatchAt(t, "%s", i)
  }

  /** The count that refuses a template is that of its slots if and only if every percent sign starts one. */
  lemma {:induction false} CountExact(t: string)
    ensures Slots(t) == Count(t, '%') <==> PercentsAreSlots(t)
  {
    if t != "" {
      if SlotFirst(t) {
        CharOfMatch(t, SLOT, 0, 0);
        CharOfMatch(t, SLOT, 0, 1);
        CountExact(t[2..]);
        assert t[1..][1..] == t[2..];
        PercentsBehind(t, 2);
      } else {
        CountExact(t[1..]);
        SlotsCounted(t[1..]);
        if t[0] != '%' {
          PercentsBehind(t, 1);
        }
      }
    }
  }

  /** A template's refusal that is not for want of parameters. */
  predicate RefusedNeedlessly(t: string, u: string) {
    Refused(t, u) && Slots(t) <= |Split(u, '|')|
  }

  lemma {:induction false} Pieces(n: nat)
    ensures |Split(seq(n, _ => '|'), '|')| == n + 1
  {
    var bars := seq(n, _ => '|');
    if n > 0 {
      Pieces(n - 1);
      assert bars[1..] == seq(n - 1, _ => '|');
    }
  }

  /** A template can be refused though the parameters suffice for its slots if and only if it has two percent
      signs or more and one of them starts no slot: there is always one parameter, so that a single percent
      sign is never too many. */
  lemma RefusedNeedlesslyExactly(t: string)
    requires t != "" && t != RAW
    ensures (exists u :: RefusedNeedlessly(t, u)) <==> Count(t, '%') >= 2 && !PercentsAreSlots(t)
  {
    SlotsCounted(t);
    CountExact(t);
    if Count(t, '%') >= 2 && !PercentsAreSlots(t) {
      var n := if Slots(t) == 0 then 0 else Slots(t) - 1;
      Pieces(n);
      assert RefusedNeedlessly(t, seq(n, _ => '|'));
    }
  }

  /** For example, "100% %s" with one parameter. */
  lemma PercentageRefused(u: string)
    requires Free(u, '|')
    ensures RefusedNeedlessly("100% %s", u)
  {
    SplitPiece(u, '|');
    var t := "100% %s";
    assert t[1..] == "00% %s" && t[1..][1..] == "0% %s" && t[1..][1..][1..] == "% %s";
    assert "% %s"[1..] == " %s" && " %s"[1..] == "%s" && "%s"[1..] == "s" && "s"[1..] == "";
    assert Count("%s", '%') == 1 && Count("% %s", '%') == 2;
    assert Count("00% %s", '%') == 2;
    assert t[5..7] == SLOT && t[7..] == "" && t[0..] == t;
    forall j: nat | j < 5 ensures !MatchAt(t, SLOT, j) {
      assert t[j..j + 2][0] == t[j] && t[j..j + 2][1] == t[j + 1];
    }
    LiteralsUpTo(t, 0, 5);
  }

  lemma PercentsBehind(t: string, n: nat)
    requires n <= |t| && forall i :: 0 <= i < n ==> t[i] == '%' ==> MatchAt(t, SLOT, i)
    ensures PercentsAreSlots(t) <==> PercentsAreSlots(t[n..])
  {
    forall i | n <= i < |t| ensures MatchAt(t, SLOT, i) <==> MatchAt(t[n..], SLOT, i - n) {
      MatchShift(t, SLOT, n, i - n);
    }
    assert forall i :: 0 <= i < |t| - n ==> t[n..][i] == t[i + n];
  }

  lemma {:induction false} OneLiteral(t: string)
    requires Slots(t) == 0
    ensures Literals(t) == [t]
  {
    if t != "" {
      OneLiteral(t[1..]);
      assert [t[0]] + t[1..] == t;
    }
  }

  // ---------- what the filled template is ----------

  function Markers(n: nat): seq<string> {
    seq(n, _ => "%s")
  }

  /** The literals are those of the template: with the slots between them they make it again. */
  lemma {:induction false} LiteralsRejoin(t: string)
    ensures Interleave(Literals(t), Markers(Slots(t))) == t
  {
    if t != "" {
      if SlotFirst(t) {
        LiteralsRejoin(t[2..]);
        var ls := Literals(t[2..]);
        assert Literals(t)[1..] == ls && Markers(Slots(t))[1..] == Markers(Slots(t[2..]));
        assert t == t[0..2] + t[2..];
      } else {
        LiteralsRejoin(t[1..]);
        FirstLonger(t[0], Literals(t[1..]), Markers(Slots(t)));
      }
    }
  }

  lemma FirstLonger(c: char, ls: seq<string>, ps: seq<string>)
    requires 0 < |ls| <= |ps| + 1
    ensures Interleave([[c] + ls[0]] + ls[1..], ps) == [c] + Interleave(ls, ps)
  {
    var ms := [[c] + ls[0]] + ls[1..];
    assert ms[1..] == ls[1..];
  }

  /** No literal has a slot in it. */
  lemma {:induction false} LiteralsHaveNoSlot(t: string, i: nat, j: nat)
    requires i < |Literals(t)|
    ensures !MatchAt(Literals(t)[i], "%s", j)
  {
    if t != "" {
      if SlotFirst(t) {
        if i > 0 {
          LiteralsHaveNoSlot(t[2..], i - 1, j);
        }
      } else if i > 0 || j > 0 {
        LiteralsHaveNoSlot(t[1..], i, if i == 0 then j - 1 else j);
        if i == 0 {
          MatchShift(Literals(t)[0], SLOT, 1, j - 1);
          assert Literals(t)[0][1..] == Literals(t[1..])[0];
        }
      } else {
        LiteralPrefix(t);
        PrefixMatch(Literals(t)[0], t, SLOT);
      }
    }
  }

  lemma PrefixMatch(s: string, t: string, pattern: string)
    requires s <= t
    ensures MatchAt(s, pattern, 0) ==> MatchAt(t, pattern, 0)
  {
    assert |pattern| <= |s| ==> s[0..|pattern|] == t[0..|pattern|];
  }

  lemma {:induction false} LiteralPrefix(t: string)
    ensures Literals(t)[0] <= t
  {
    if t != "" && !SlotFirst(t) {
      LiteralPrefix(t[1..]);
      assert t == [t[0]] + t[1..];
    }
  }

  predicate Free(s: string, c: char) {
    c !in s
  }

  /** Splitting undoes joining. */
  lemma {:induction false} SplitJoin(ps: seq<string>, c: char)
    requires ps != [] && forall p :: p in ps ==> Free(p, c)
    ensures Split(Join(ps, c), c) == ps
  {
    if |ps| == 1 {
      SplitPiece(ps[0], c);
    } else {
      SplitJoin(ps[1..], c);
      SplitFirst(ps[0], c, Join(ps[1..], c));
      assert ps == [ps[0]] + ps[1..];
    }
  }

  lemma {:induction false} SplitPiece(p: string, c: char)
    requires Free(p, c)
    ensures Split(p, c) == [p]
  {
    if p != "" {
      SplitPiece(p[1..], c);
      assert [p[0]] + p[1..] == p;
    }
  }

  lemma {:induction false} SplitFirst(p: string, c: char, rest: string)
    requires Free(p, c)
    ensures Split(p + [c] + rest, c) == [p] + Split(rest, c)
  {
    var s := p + [c] + rest;
    if p == "" {
      assert s[1..] == rest;
    } else {
      SplitFirst(p[1..], c, rest);
      assert s[1..] == p[1..] + [c] + rest;
      assert [p[0]] + p[1..] == p;
    }
  }

  /** Only the leading parameters, one for each slot, are used. */
  lemma {:induction false} LeadingOnly(ls: seq<string>, ps: seq<string>)
    requires 0 < |ls| <= |ps| + 1
    ensures Interleave(ls, ps) == Interleave(ls, ps[..|ls| - 1])
  {
    if |ls| > 1 {
      LeadingOnly(ls[1..], ps[1..]);
      assert ps[..|ls| - 1][1..] == ps[1..][..|ls| - 2];
    }
  }

  /** Each parameter goes behind the literal of the same number. */
  lemma {:induction false} InTurn(ls: seq<string>, ps: seq<string>, i: nat)
    requires i + 1 < |ls| <= |ps| + 1
    ensures Interleave(ls, ps)
            == Interleave(ls[..i + 1], ps[..i]) + ps[i] + Interleave(ls[i + 1..], ps[i + 1..])
    decreases i
  {
    if i == 0 {
      assert ls[..1] == [ls[0]];
    } else {
      InTurn(ls[1..], ps[1..], i - 1);
      assert ls[1..][..i] == ls[..i + 1][1..] && ps[1..][..i - 1] == ps[..i][1..];
      assert ls[1..][i..] == ls[i + 1..] && ps[1..][i..] == ps[i + 1..];
      var tail := Interleave(ls[i + 1..], ps[i + 1..]);
      RegroupTwo(ls[0] + ps[0], Interleave(ls[1..][..i], ps[1..][..i - 1]), ps[i], tail);
    }
  }

  lemma RegroupTwo(a: string, b: string, c: string, d: string)
    ensures a + (b + c + d) == a + b + c + d
  {
  }

  lemma OneSlot(a: string, rest: string)
    requires Free(a, '%')
    ensures Literals(a + "%s" + rest) == [a] + Literals(rest)
  {
    var t, k := a + "%s" + rest, |a|;
    assert t[k..k + 2] == "%s" && t[0..] == t && t[0..k] == a && t[k + 2..] == rest;
    forall j: nat | j < k ensures !MatchAt(t, SLOT, j) {
      if MatchAt(t, SLOT, j) {
        CharOfMatch(t, SLOT, j, 0);
      }
    }
    LiteralsUpTo(t, 0, k);
  }

  lemma LastLiteral(c: string)
    requires Free(c, '%')
    ensures Literals(c) == [c]
  {
    forall j: nat ensures !MatchAt(c, SLOT, j) {
      if MatchAt(c, SLOT, j) {
        CharOfMatch(c, SLOT, j, 0);
      }
    }
    NoSlot(c, 0);
    assert c[0..] == c;
  }

  lemma InterleaveThree(ls: seq<string>, ps: seq<string>)
    requires |ls| == 3 && |ps| >= 2
    ensures Interleave(ls, ps) == ls[0] + ps[0] + (ls[1] + ps[1] + ls[2])
  {
    assert ls[1..][1..] == [ls[2]] && ps[1..][0] == ps[1];
    assert Interleave(ls[1..][1..], ps[1..][1..]) == ls[2];
  }

  /** A template with two slots and no other percent sign, filled with two parameters or more. */
  lemma TwoSlots(a: string, b: string, c: string, ps: seq<string>)
    requires Free(a, '%') && Free(b, '%') && Free(c, '%') && |ps| >= 2
    ensures var t := a + "%s" + (b + "%s" + c);
            Slots(t) == 2 && Interleave(Literals(t), ps) == a + ps[0] + (b + ps[1] + c)
  {
    OneSlot(a, b + "%s" + c);
    OneSlot(b, c);
    LastLiteral(c);
    InterleaveThree([a] + ([b] + [c]), ps);
  }
}
