/** The management epoch allocator: a counter that survives restarts because
    the file is moved past an epoch before the epoch is handed out. */
module Epoch {
  import opened Bytes
  import opened Decimals

  const NEWLINE: u8 := 10
  const PLUS: u8 := 43
  const MINUS: u8 := 45

  /** Buffer that the file must leave room in for a terminator. */
  const TEXT_MAX: nat := 64

  // ---- the file's text ----

  /** `meshd_management_epoch_write` prints the value and a newline. */
  function Print(n: u64): seq<u8> { Numeral(n) + [NEWLINE] }

  predicate IsSpace(c: u8) { 9 <= c <= 13 || c == 32 }

  /** The C string in a buffer: everything before the first NUL. */
  function Text(s: seq<u8>): seq<u8> {
    if s == [] || s[0] == 0 then [] else [s[0]] + Text(s[1..])
  }

  function SkipSpaces(s: seq<u8>): seq<u8> {
    if s != [] && IsSpace(s[0]) then SkipSpaces(s[1..]) else s
  }

  /** Number of leading digits. */
  function DigitRun(s: seq<u8>): (k: nat)
    ensures k <= |s| && AllDigits(s[..k])
    ensures k < |s| ==> !IsDigit(s[k])
  {
    if s == [] || !IsDigit(s[0]) then 0
    else
      var k := DigitRun(s[1..]);
      assert s[..k + 1] == [s[0]] + s[1..][..k];
      k + 1
  }

  datatype Parsed = Parsed(value: u64, rest: seq<u8>)

  /** `strtoull(s, &end, 10)`: `None` without digits or out of range. A minus
      sign negates modulo two to the 64. */
  function StrToU64(s: seq<u8>): Option<Parsed> {
    var t := SkipSpaces(s);
    var negative := t != [] && t[0] == MINUS;
    var u := if t != [] && (t[0] == MINUS || t[0] == PLUS) then t[1..] else t;
    var k := DigitRun(u);
    if k == 0 || Decimal(u[..k]) > U64_MAX then None
    else
      var v := Decimal(u[..k]);
      Some(Parsed(if negative && v != 0 then U64_MAX + 1 - v else v, u[k..]))
  }

  /** The value that reopening accepts from the file. */
  function ReadEpoch(file: seq<u8>): Option<u64> {
    if file == [] || |file| >= TEXT_MAX then None
    else
      var p := StrToU64(SkipSpaces(Text(file)));
      if p.None? || p.value.value == 0 || p.value.value == U64_MAX || SkipSpaces(p.value.rest) != [] then None
      else Some(p.value.value)
  }

  lemma {:induction false} TextWhole(s: seq<u8>)
    requires 0 !in s
    ensures Text(s) == s
  {
    if s == [] {
    } else {
      TextWhole(s[1..]);
    }
  }

  lemma {:induction false} RunOfDigits(s: seq<u8>)
    requires AllDigits(s)
    ensures DigitRun(s + [NEWLINE]) == |s|
  {
    if s == [] {
    } else {
      assert IsDigit(s[0]) && (s + [NEWLINE])[1..] == s[1..] + [NEWLINE];
      RunOfDigits(s[1..]);
    }
  }

  lemma ParsePrinted(n: u64)
    ensures StrToU64(Print(n)) == Some(Parsed(n, [NEWLINE]))
    ensures SkipSpaces(Print(n)) == Print(n)
  {
    var s, t := Numeral(n), Print(n);
    assert IsDigit(s[0]) && t[0] == s[0];
    RunOfDigits(s);
    assert t[..|s|] == s && t[|s|..] == [NEWLINE];
    DecimalOfNumeral(n);
  }

  /** What was written is what is read back; only the largest value, which the
      allocator never needs again, is refused. */
  lemma ReadPrinted(n: u64)
    requires n != 0
    ensures ReadEpoch(Print(n)) == if n == U64_MAX then None else Some(n)
  {
    U64Length(n);
    assert forall i :: 0 <= i < |Numeral(n)| ==> IsDigit(Numeral(n)[i]);
    TextWhole(Print(n));
    ParsePrinted(n);
    assert [NEWLINE][1..] == [];
    assert SkipSpaces([NEWLINE]) == [];
  }

  // ---- steps ----

  /** The file, the counter of a running allocator, and every epoch handed out
      so far, in order. */
  datatype World = World(file: Option<seq<u8>>, next: Option<u64>, handed: seq<u64>)

  /** Outcomes of an open: whether the lock was taken, what `access` says, and
      whether reading or the initial write works. */
  datatype OpenEnv = OpenEnv(locked: bool, seemsAbsent: bool, readable: bool, writes: bool)

  datatype Event =
    | EvOpen(first: u64, env: OpenEnv)
    | EvClose
    | EvAllocate(writes: bool)

  /** `meshd_management_epoch_write`: a returned rename is durable, a failed
      one changes nothing. */
  function Write(file: Option<seq<u8>>, value: u64, writes: bool): Option<seq<u8>> {
    if writes then Some(Print(value)) else file
  }

  function Open(w: World, first: u64, env: OpenEnv): World {
    if first == 0 then w
    else if !env.locked then World(w.file, None, w.handed)
    else if env.seemsAbsent then
      World(Write(w.file, first, env.writes), if env.writes then Some(first) else None, w.handed)
    else if w.file.None? || !env.readable then World(w.file, None, w.handed)
    else World(w.file, ReadEpoch(w.file.value), w.handed)
  }

  /** `meshd_management_epoch_allocate`: the file moves first. */
  function Allocate(w: World, writes: bool): World {
    if w.next.None? || w.next.value == 0 || w.next.value == U64_MAX || !writes then w
    else World(Write(w.file, w.next.value + 1, true), Some(w.next.value + 1), w.handed + [w.next.value])
  }

  /** A step; closing is also what a crash does. */
  function Step(w: World, ev: Event): World {
    match ev
    case EvOpen(first, env) => Open(w, first, env)
    case EvClose => World(w.file, None, w.handed)
    case EvAllocate(writes) => Allocate(w, writes)
  }

  /** Absence is reported only of an absent file. */
  predicate Honest(w: World, ev: Event) {
    ev.EvOpen? && ev.env.seemsAbsent ==> w.file.None?
  }

  function Run(w: World, evs: seq<Event>): World {
    if evs == [] then w else Step(Run(w, evs[..|evs| - 1]), evs[|evs| - 1])
  }

  ghost predicate HonestRun(w: World, evs: seq<Event>) {
    forall i :: 0 <= i < |evs| ==> Honest(Run(w, evs[..i]), evs[i])
  }

  // ---- the invariant ----

  ghost predicate Increasing(s: seq<u64>) {
    forall i, j :: 0 <= i < j < |s| ==> s[i] < s[j]
  }

  predicate Above(s: seq<u64>, v: u64) {
    forall i :: 0 <= i < |s| ==> s[i] < v
  }

  /** Once an epoch is out, the file reads as a larger one; the running counter
      is above every epoch too. */
  ghost predicate Inv(w: World) {
    && Increasing(w.handed)
    && (forall i :: 0 <= i < |w.handed| ==> 0 < w.handed[i] < U64_MAX)
    && (w.handed != [] ==> exists n: u64 :: w.file == Some(Print(n)) && n != 0 && Above(w.handed, n))
    && (w.next.Some? ==> w.next.value != 0 && Above(w.handed, w.next.value))
  }

  lemma StepKeeps(w: World, ev: Event)
    requires Inv(w) && Honest(w, ev)
    ensures Inv(Step(w, ev))
  {
    match ev
    case EvOpen(first, env) =>
      if w.handed != [] {
        var n: u64 :| w.file == Some(Print(n)) && n != 0 && Above(w.handed, n);
        ReadPrinted(n);
      }
    case EvClose =>
    case EvAllocate(writes) =>
      var o := Allocate(w, writes);
      if o != w {
        var v: u64 := w.next.value + 1;
        assert o.file == Some(Print(v)) && Above(o.handed, v);
      }
  }

  lemma {:induction false} RunKeeps(w: World, evs: seq<Event>)
    requires Inv(w) && HonestRun(w, evs)
    ensures Inv(Run(w, evs))
  {
    if evs == [] {
    } else {
      var n := |evs| - 1;
      forall i | 0 <= i < n
        ensures Honest(Run(w, evs[..n][..i]), evs[..n][i])
      {
        assert evs[..n][..i] == evs[..i];
      }
      RunKeeps(w, evs[..n]);
      StepKeeps(Run(w, evs[..n]), evs[n]);
    }
  }

  /** Over every run from any file left by earlier times, through crashes,
      failed writes and restarts, epochs are handed out in strictly increasing
      order, never twice, and never wrap. */
  lemma EpochsIncrease(file: Option<seq<u8>>, evs: seq<Event>)
    requires HonestRun(World(file, None, []), evs)
    ensures Increasing(Run(World(file, None, []), evs).handed)
    ensures forall i :: 0 <= i < |Run(World(file, None, []), evs).handed| ==>
      0 < Run(World(file, None, []), evs).handed[i] < U64_MAX
  {
    RunKeeps(World(file, None, []), evs);
  }

  /** On honest runs the file is exactly one past the last epoch handed out. */
  ghost predicate Exact(w: World) {
    w.handed != [] ==>
      && w.handed[|w.handed| - 1] < U64_MAX && w.file == Some(Print(w.handed[|w.handed| - 1] + 1))
      && (w.next.Some? ==> w.next.value == w.handed[|w.handed| - 1] + 1)
  }

  lemma StepKeepsExact(w: World, ev: Event)
    requires Exact(w) && Honest(w, ev)
    ensures Exact(Step(w, ev))
  {
    if w.handed != [] {
      ReadPrinted(w.handed[|w.handed| - 1] + 1);
    }
  }

  lemma {:induction false} RunKeepsExact(file: Option<seq<u8>>, evs: seq<Event>)
    requires HonestRun(World(file, None, []), evs)
    ensures Exact(Run(World(file, None, []), evs)) && Inv(Run(World(file, None, []), evs))
  {
    RunKeeps(World(file, None, []), evs);
    if evs == [] {
    } else {
      var n := |evs| - 1;
      forall i | 0 <= i < n
        ensures Honest(Run(World(file, None, []), evs[..n][..i]), evs[..n][i])
      {
        assert evs[..n][..i] == evs[..i];
      }
      RunKeepsExact(file, evs[..n]);
      StepKeepsExact(Run(World(file, None, []), evs[..n]), evs[n]);
    }
  }

  /** An open that finds the file reported as absent, and writes over it. */
  function Misreported(w: World, first: u64): World {
    Step(w, EvOpen(first, OpenEnv(true, true, true, true)))
  }

  /** Every honest continuation hands out increasing epochs. */
  ghost predicate SafeFrom(w: World) {
    forall evs: seq<Event> :: HonestRun(w, evs) ==> Increasing(Run(w, evs).handed)
  }

  lemma SafeIfAbove(w: World, first: u64)
    requires Inv(w) && 0 < first && Above(w.handed, first)
    ensures SafeFrom(Misreported(w, first))
  {
    var o := Misreported(w, first);
    assert o == World(Some(Print(first)), Some(first), w.handed);
    assert Inv(o);
    forall evs: seq<Event> | HonestRun(o, evs)
      ensures Increasing(Run(o, evs).handed)
    {
      RunKeeps(o, evs);
    }
  }

  lemma UnsafeIfBelow(w: World, first: u64)
    requires w.handed != [] && 0 < first <= w.handed[|w.handed| - 1] < U64_MAX
    ensures !SafeFrom(Misreported(w, first))
  {
    var o, evs := Misreported(w, first), [EvAllocate(true)];
    assert evs[..0] == [] && Run(o, evs[..0]) == o;
    assert Run(o, evs) == Step(o, EvAllocate(true));
    var r := Run(o, evs).handed;
    assert r == w.handed + [first];
    assert r[|w.handed| - 1] == w.handed[|w.handed| - 1] && r[|w.handed|] == first;
    assert HonestRun(o, evs);
  }

  lemma PrintInjective(n: u64, m: u64)
    requires Print(n) == Print(m)
    ensures n == m
  {
    ParsePrinted(n);
    ParsePrinted(m);
  }

  lemma SafeIffAt(w: World, first: u64, n: u64)
    requires Inv(w) && Exact(w) && w.handed != [] && w.file == Some(Print(n)) && 0 < first
    ensures SafeFrom(Misreported(w, first)) <==> first >= n
  {
    PrintInjective(n, w.handed[|w.handed| - 1] + 1);
    if first >= n {
      SafeIfAbove(w, first);
    } else {
      UnsafeIfBelow(w, first);
    }
  }

  /** After an honest run that handed something out, a restart that misreports the
      file as absent is safe for every continuation exactly if the configured
      first epoch is not below the number in the file. */
  lemma MisreportedFileIsSafeIff(file: Option<seq<u8>>, evs: seq<Event>, first: u64, n: u64)
    requires HonestRun(World(file, None, []), evs) && 0 < first
    requires Run(World(file, None, []), evs).handed != []
    requires Run(World(file, None, []), evs).file == Some(Print(n))
    ensures SafeFrom(Misreported(Run(World(file, None, []), evs), first)) <==> first >= n
  {
    RunKeepsExact(file, evs);
    SafeIffAt(Run(World(file, None, []), evs), first, n);
  }

  /** A concrete repeat: hand out epoch 1, restart with the file reported
      absent, hand out epoch 1 again. */
  lemma MisreportedFileRepeats()
    ensures var open := EvOpen(1, OpenEnv(true, true, true, true));
      Run(World(None, None, []), [open, EvAllocate(true), EvClose, open, EvAllocate(true)]).handed == [1, 1]
  {
    var open := EvOpen(1, OpenEnv(true, true, true, true));
    var evs := [open, EvAllocate(true), EvClose, open, EvAllocate(true)];
    var w := World(None, None, []);
    assert evs[..4][..3] == evs[..3] && evs[..3][..2] == evs[..2] && evs[..2][..1] == evs[..1] && evs[..1][..0] == [];
    assert Run(w, evs[..1]) == World(Some(Print(1)), Some(1), []);
    assert Run(w, evs[..2]) == World(Some(Print(2)), Some(2), [1]);
    assert Run(w, evs[..3]) == World(Some(Print(2)), None, [1]);
    assert Run(w, evs[..4]) == World(Some(Print(1)), Some(1), [1]);
  }

  // ---- restarts and allocations that succeed ----

  lemma {:induction false} SkipsSpaces(pre: seq<u8>, s: seq<u8>)
    requires (forall i :: 0 <= i < |pre| ==> IsSpace(pre[i])) && (s != [] ==> !IsSpace(s[0]))
    ensures SkipSpaces(pre + s) == s
  {
    if pre == [] {
      assert pre + s == s;
    } else {
      assert (pre + s)[1..] == pre[1..] + s;
      SkipsSpaces(pre[1..], s);
    }
  }

  lemma {:induction false} RunEnds(digits: seq<u8>, post: seq<u8>)
    requires AllDigits(digits) && (post != [] ==> !IsDigit(post[0]))
    ensures DigitRun(digits + post) == |digits|
  {
    if digits == [] {
      assert digits + post == post;
    } else {
      assert IsDigit(digits[0]) && (digits + post)[1..] == digits[1..] + post;
      RunEnds(digits[1..], post);
    }
  }

  lemma DigitsParse(digits: seq<u8>, post: seq<u8>)
    requires IsDecimal(digits) && (post != [] ==> !IsDigit(post[0]))
    ensures StrToU64(digits + post) ==
      if Decimal(digits) > 18446744073709551615 then None else Some(Parsed(Decimal(digits), post))
  {
    var t := digits + post;
    assert IsDigit(digits[0]) && t[0] == digits[0];
    RunEnds(digits, post);
    assert t[..|digits|] == digits && t[|digits|..] == post;
  }

  /** Tabs, line feeds, vertical tabs, form feeds, carriage returns and spaces. */
  predicate WhiteSpace(s: seq<u8>) {
    forall i :: 0 <= i < |s| ==>
      s[i] == 9 || s[i] == 10 || s[i] == 11 || s[i] == 12 || s[i] == 13 || s[i] == 32
  }

  /** The digits after a sign. */
  lemma SignedDigits(sign: u8, digits: seq<u8>, post: seq<u8>)
    requires (sign == 43 || sign == 45) && IsDecimal(digits) && (post != [] ==> !IsDigit(post[0]))
    ensures var t := [sign] + (digits + post);
      && SkipSpaces(t) == t && t[0] == sign && t[1..] == digits + post
      && DigitRun(t[1..]) == |digits| && t[1..][..|digits|] == digits && t[1..][|digits|..] == post
  {
    RunEnds(digits, post);
    assert ([sign] + (digits + post))[1..] == digits + post;
  }

  /** A plus sign is taken and changes nothing. */
  lemma PlusNumber(digits: seq<u8>, post: seq<u8>)
    requires IsDecimal(digits) && (post != [] ==> !IsDigit(post[0])) && Decimal(digits) <= 18446744073709551615
    ensures StrToU64([43] + (digits + post)) == Some(Parsed(Decimal(digits), post))
  {
    SignedDigits(43, digits, post);
  }

  /** A minus sign negates modulo two to the 64. */
  lemma MinusNumber(digits: seq<u8>, post: seq<u8>)
    requires IsDecimal(digits) && (post != [] ==> !IsDigit(post[0])) && Decimal(digits) <= 18446744073709551615
    ensures StrToU64([45] + (digits + post)) ==
      Some(Parsed(if Decimal(digits) == 0 then 0 else 18446744073709551616 - Decimal(digits), post))
  {
    SignedDigits(45, digits, post);
  }

  /** What is no number at all is refused. */
  lemma NoNumber(s: seq<u8>)
    requires s == [] || (!IsDigit(s[0]) && s[0] != 43 && s[0] != 45 && !WhiteSpace(s[..1]))
    ensures StrToU64(s) == None
  {
  }

  /** A file that holds a decimal number between white space is read as that number,
      exactly if it is neither zero nor the largest, and the file is short enough. */
  lemma NumberIsRead(pre: seq<u8>, digits: seq<u8>, post: seq<u8>)
    requires IsDecimal(digits) && WhiteSpace(pre) && WhiteSpace(post)
    ensures ReadEpoch(pre + digits + post) ==
      if |pre + digits + post| < 64 && 0 < Decimal(digits) < 18446744073709551615 then Some(Decimal(digits)) else None
  {
    var file := pre + digits + post;
    assert forall i :: 0 <= i < |digits| ==> IsDigit(digits[i]);
    TextWhole(file);
    assert file == pre + (digits + post);
    SkipsSpaces(pre, digits + post);
    SkipsSpaces([], digits + post);
    assert [] + (digits + post) == digits + post;
    DigitsParse(digits, post);
    SkipsSpaces(post, []);
    assert post + [] == post;
  }

  /** A number followed by anything but white space is refused. */
  lemma TrailerIsRefused(digits: seq<u8>, post: seq<u8>)
    requires IsDecimal(digits) && 0 !in post && post != [] && !IsDigit(post[0]) && !WhiteSpace(post[..1])
    ensures ReadEpoch(digits + post) == None
  {
    var file := digits + post;
    assert forall i :: 0 <= i < |digits| ==> IsDigit(digits[i]);
    TextWhole(file);
    assert IsDigit(file[0]);
    DigitsParse(digits, post);
  }

  /** An open succeeds exactly if it is given a first epoch and the lock, and either
      finds no file and can write one, or can read a good one; it then continues from
      the number in the file. */
  lemma OpenOkIff(w: World, first: u64, env: OpenEnv)
    requires w.next.None?
    ensures var o := Step(w, EvOpen(first, env));
      && o.handed == w.handed
      && (o.next.Some? <==>
            && first > 0 && env.locked
            && (if env.seemsAbsent then env.writes
                else w.file.Some? && env.readable && ReadEpoch(w.file.value).Some?))
      && (o.next.Some? && env.seemsAbsent ==> o.next == Some(first) && o.file == Some(Print(first)))
      && (o.next.Some? && !env.seemsAbsent ==> o.next == ReadEpoch(w.file.value) && o.file == w.file)
      && (o.next.None? ==> o.file == w.file)
  {
  }

  /** An allocation succeeds exactly on an open allocator below the largest number
      whose write works; it hands out the counter, and the file moves one past it. */
  lemma AllocateOkIff(w: World, writes: bool)
    ensures var o := Step(w, EvAllocate(writes));
      && (o != w <==> w.next.Some? && 0 < w.next.value < 18446744073709551615 && writes)
      && (o != w ==>
            && o.handed == w.handed + [w.next.value] && o.next == Some(w.next.value + 1)
            && o.file == Some(Numeral(w.next.value + 1) + [10]))
  {
  }

  /** A restart works: after any honest run that handed something out, an open that
      gets the lock and reads the file continues with the next number, unless the
      numbers are used up. */
  lemma RestartContinues(file: Option<seq<u8>>, evs: seq<Event>, first: u64)
    requires HonestRun(World(file, None, []), evs) && first > 0
    requires Run(World(file, None, []), evs).handed != []
    ensures var w := Run(World(file, None, []), evs);
      var last := w.handed[|w.handed| - 1];
      last < U64_MAX
      && Step(Step(w, EvClose), EvOpen(first, OpenEnv(true, false, true, true))).next
           == if last + 1 < U64_MAX then Some(last + 1) else None
  {
    RunKeepsExact(file, evs);
    RestartAt(Run(World(file, None, []), evs), first);
  }

  lemma RestartAt(w: World, first: u64)
    requires Exact(w) && w.handed != [] && first > 0
    ensures var last := w.handed[|w.handed| - 1];
      Step(Step(w, EvClose), EvOpen(first, OpenEnv(true, false, true, true))).next
        == if last + 1 < U64_MAX then Some(last + 1) else None
  {
    ReadPrinted(w.handed[|w.handed| - 1] + 1);
  }

  // ---- the code ----

  /** The allocator object and its file. */
  class EpochState {
    var file: Option<seq<u8>>
    var next: u64
    var initialized: bool
    ghost var handed: seq<u64>

    constructor (file: Option<seq<u8>>)
      ensures Value() == World(file, None, [])
    {
      this.file := file;
      next, initialized, handed := 0, false, [];
    }

    ghost function Value(): World
      reads this
    {
      World(file, if initialized then Some(next) else None, handed)
    }

    method CloseState()
      modifies this
      ensures Value() == Step(old(Value()), EvClose)
    {
      next, initialized := 0, false;
    }

    method OpenState(first: u64, env: OpenEnv) returns (ok: bool)
      modifies this
      ensures Value() == Step(old(Value()), EvOpen(first, env))
      ensures ok <==> first != 0 && initialized
    {
      if first == 0 {
        return false;
      }
      next, initialized := 0, false;
      if !env.locked {
        return false;
      }
      if env.seemsAbsent {
        if !env.writes {
          return false;
        }
        file := Some(Print(first));
        next := first;
      } else {
        if file.None? || !env.readable {
          return false;
        }
        var parsed := ReadEpoch(file.value);
        if parsed.None? {
          return false;
        }
        next := parsed.value;
      }
      initialized := true;
      return true;
    }

    /** On success the returned epoch is above every earlier one. */
    method AllocateEpoch(writes: bool) returns (ok: bool, epoch: u64)
      modifies this
      ensures Value() == Step(old(Value()), EvAllocate(writes))
      ensures ok ==> handed == old(handed) + [epoch]
      ensures ok && old(Inv(Value())) ==> Inv(Value()) && Above(old(handed), epoch)
      ensures !ok ==> epoch == 0 && Value() == old(Value())
    {
      if Inv(Value()) {
        StepKeeps(Value(), EvAllocate(writes));
      }
      if !initialized || next == 0 || next == U64_MAX || !writes {
        return false, 0;
      }
      var reserved := next;
      file := Some(Print(reserved + 1));
      next := reserved + 1;
      handed := handed + [reserved];
      return true, reserved;
    }
  }
}
