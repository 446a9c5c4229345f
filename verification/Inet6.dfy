/**
  IPv6 addresses as text (Sources/fnet_stack/stack/fnet_inet.c), in the form of section 2.2 of RFC 4291
  with the choices of section 4.2 of RFC 5952.  A zone after '%' is not part of the address.
 */
module Inet6 {
  import opened Words
  import opened Wrappers
  import opened Inet4

  // ----- groups of hexadecimal digits

  predicate IsHex(ch: char) {
    '0' <= ch <= '9' || 'a' <= ch <= 'f' || 'A' <= ch <= 'F'
  }

  /** The place of a digit in "0123456789abcdef", or in the same with capitals. */
  function HexDigit(ch: char): (d: nat)
    requires IsHex(ch)
    ensures d < 16 && (ch == "0123456789abcdef"[d] || ch == "0123456789ABCDEF"[d])
  {
    if ch <= '9' then ch as nat - '0' as nat
    else if ch >= 'a' then ch as nat - 'a' as nat + 10
    else ch as nat - 'A' as nat + 10
  }

  /** The digits in both cases are the hexadecimal characters. */
  lemma HexChars(ch: char)
    ensures IsHex(ch) <==> ch in "0123456789abcdefABCDEF"
  {}

  function HexValue(s: string): nat
    requires forall k :: 0 <= k < |s| ==> IsHex(s[k])
  {
    if s == [] then 0 else HexValue(s[..|s| - 1]) * 16 + HexDigit(s[|s| - 1])
  }

  lemma {:induction false} HexBound(s: string)
    requires (forall k :: 0 <= k < |s| ==> IsHex(s[k])) && |s| <= 4
    ensures |s| == 4 ==> HexValue(s) < 0x1_0000
    ensures |s| <= 3 ==> HexValue(s) < 0x1000
    ensures |s| <= 2 ==> HexValue(s) < 0x100
    ensures |s| <= 1 ==> HexValue(s) < 0x10
  {
    if s != [] {
      HexBound(s[..|s| - 1]);
    }
  }

  /** The conversion "%x". */
  function Hex(n: nat): (s: string)
    ensures s != [] && (n < 0x10 ==> |s| == 1) && (n < 0x100 ==> |s| <= 2) && (n < 0x1000 ==> |s| <= 3) && (n < 0x1_0000 ==> |s| <= 4)
    ensures forall k :: 0 <= k < |s| ==> IsHex(s[k])
  {
    if n < 16 then [HexChar(n)] else Hex(n / 16) + [HexChar(n % 16)]
  }

  function HexChar(d: nat): (ch: char)
    requires d < 16
    ensures IsHex(ch) && HexDigit(ch) == d && ch == "0123456789abcdef"[d]
  {
    if d < 10 then '0' + d as char else 'a' + (d - 10) as char
  }

  lemma {:induction false} HexInverse(n: nat)
    ensures HexValue(Hex(n)) == n
  {
    if n >= 16 {
      HexInverse(n / 16);
    }
  }

  // ----- texts

  ghost predicate Group(s: string) {
    0 < |s| <= 4 && forall k :: 0 <= k < |s| ==> IsHex(s[k])
  }

  ghost predicate Groups(gs: seq<string>) {
    forall i :: 0 <= i < |gs| ==> Group(gs[i])
  }

  /** Groups, each followed by a colon. */
  function Coloned(gs: seq<string>): string {
    if gs == [] then [] else Coloned(gs[..|gs| - 1]) + gs[|gs| - 1] + ":"
  }

  lemma ColonedMore(gs: seq<string>, g: string)
    ensures Coloned(gs + [g]) == Coloned(gs) + g + ":"
  {
    assert (gs + [g])[..|gs|] == gs;
  }

  /** Groups before and after a gap "::", if there is one, and the digits of the group in progress. */
  datatype Parts = Parts(left: seq<string>, gap: bool, right: seq<string>, current: string)

  /** The text read to reach a state; at the start a gap's two colons belong to it, elsewhere one ends a group. */
  function Read(s: Parts): string {
    Coloned(s.left) + (if !s.gap then "" else if s.left == [] then "::" else ":") + Coloned(s.right) + s.current
  }

  ghost predicate Reachable(s: Parts) {
    && Groups(s.left) && Groups(s.right) && (s.current == "" || Group(s.current))
    && |s.left| + |s.right| <= 8 && (!s.gap ==> s.right == [])
  }

  /** One more character; `last` tells that the text ends after it. */
  function Step(s: Parts, ch: char, last: bool): Option<Parts> {
    if IsHex(ch) then
      if |s.current| >= 4 then None else Some(s.(current := s.current + [ch]))
    else if ch != ':' then None
    else if s.current == "" then
      if s.gap then None else Some(s.(gap := true))
    else if last || |s.left| + |s.right| >= 8 then None
    else if s.gap then Some(s.(right := s.right + [s.current], current := ""))
    else Some(s.(left := s.left + [s.current], current := ""))
  }

  /** Where reading begins: past the first of two colons. */
  function Start(str: string): Option<nat> {
    if |str| == 0 || str[0] != ':' then Some(0)
    else if |str| >= 2 && str[1] == ':' then Some(1)
    else None
  }

  /** The state after the first `k` characters. */
  function Scan(str: string, k: nat): Option<Parts>
    requires k <= |str|
  {
    if Start(str).None? then None
    else if k <= Start(str).value then Some(Parts([], false, [], ""))
    else
      match Scan(str, k - 1)
      case None => None
      case Some(s) => Step(s, str[k - 1], k == |str|)
  }

  /** The address text ends at a '%' or at the end of the string. */
  function BodyLength(str: string): (n: nat)
    ensures n <= |str| && (n < |str| ==> str[n] == '%')
    ensures forall k :: 0 <= k < n ==> str[k] != '%'
  {
    if str == [] || str[0] == '%' then 0 else 1 + BodyLength(str[1..])
  }

  function Values(gs: seq<string>): (r: seq<byte>)
    requires Groups(gs)
    ensures |r| == 2 * |gs|
  {
    if gs == [] then []
    else
      HexBound(gs[|gs| - 1]);
      var v := HexValue(gs[|gs| - 1]);
      Values(gs[..|gs| - 1]) + [v / 256, v % 256]
  }

  function Zeros(n: nat): (r: seq<byte>)
    ensures |r| == n
  {
    seq(n, _ => 0)
  }

  function WithCurrent(gs: seq<string>, current: string): seq<string> {
    if current == "" then gs else gs + [current]
  }

  /** The address of a finished text: eight groups, or fewer and zeros for the gap. */
  function Address(s: Parts): Option<seq<byte>>
    requires Reachable(s)
  {
    var left := if s.gap then s.left else WithCurrent(s.left, s.current);
    var right := if s.gap then WithCurrent(s.right, s.current) else [];
    var n := |left| + |right|;
    if n > 8 || (if s.gap then n == 8 else n != 8) then None
    else Some(Values(left) + Zeros(16 - 2 * n) + Values(right))
  }

  /** A state in which a text may end: not right after a single colon, unless a zone follows. */
  ghost predicate MayEnd(s: Parts, zone: bool) {
    s.current != "" || (s.gap && s.right == []) || zone || (s.left == [] && !s.gap)
  }

  /** `str` reads as address `a` through the parts of `s`. */
  ghost predicate ReadsAs(str: string, s: Parts, a: seq<byte>) {
    && Reachable(s) && MayEnd(s, BodyLength(str) < |str|)
    && str[..BodyLength(str)] == Read(s) && Address(s) == Some(a)
  }

  // ----- what the scan reads

  lemma ColonedNone()
    ensures Coloned([]) == []
  {}

  lemma {:induction false} ColonedHead(gs: seq<string>)
    requires Groups(gs) && gs != []
    ensures |Coloned(gs)| >= 2 && IsHex(Coloned(gs)[0])
  {
    if |gs| > 1 {
      ColonedHead(gs[..|gs| - 1]);
    } else {
      assert Group(gs[0]);
      assert Coloned(gs) == gs[0] + ":";
    }
  }

  /** A text begins with a digit, or with a gap. */
  lemma HeadOf(s: Parts)
    requires Reachable(s) && Read(s) != []
    ensures if s.left == [] && s.gap then |Read(s)| >= 2 && Read(s)[..2] == "::" else IsHex(Read(s)[0])
  {
    hide Coloned, HexValue;
    ColonedNone();
    if s.left != [] {
      ColonedHead(s.left);
    }
  }

  lemma StepKeeps(s: Parts, ch: char, last: bool)
    requires Reachable(s) && Step(s, ch, last).Some?
    ensures var t := Step(s, ch, last).value;
            Reachable(t) && (last ==> MayEnd(t, false)) && (s.gap && s.left == [] ==> t.gap && t.left == [])
  {
    hide HexDigit;
    if ch == ':' && s.current != "" {
      GroupsMore(s.left, s.current);
      GroupsMore(s.right, s.current);
    }
  }

  lemma GroupsMore(gs: seq<string>, g: string)
    requires Groups(gs) && Group(g)
    ensures Groups(gs + [g])
  {}

  lemma StepReads(s: Parts, ch: char, last: bool)
    requires Reachable(s) && Step(s, ch, last).Some?
    ensures var t := Step(s, ch, last).value;
            && (Read(s) == [] && ch == ':' ==> t.gap && t.left == [] && Read(t) == "::")
            && (Read(s) != [] || ch != ':' ==> Read(t) == Read(s) + [ch])
  {
    hide Coloned, IsHex;
    ColonedNone();
    HexNotColon(ch);
    if ch == ':' {
      if s.current != "" {
        ColonedMore(s.left, s.current);
        ColonedMore(s.right, s.current);
      } else if s.left != [] {
        ColonedHead(s.left);
      }
    }
  }

  lemma HexNotColon(ch: char)
    ensures ch == ':' ==> !IsHex(ch)
  {}

  lemma {:induction false} ScanSound(str: string, k: nat)
    requires k <= |str| && Scan(str, k).Some?
    ensures Start(str).Some? && Reachable(Scan(str, k).value)
    ensures k <= Start(str).value ==> Scan(str, k).value == Parts([], false, [], "")
    ensures k > Start(str).value ==>
              var s := Scan(str, k).value; Read(s) == str[..k] && (k == |str| ==> MayEnd(s, false)) && (Start(str).value == 1 ==> s.gap && s.left == [])
  {
    hide Read, Reachable, Step, MayEnd;
    NothingRead();
    if k > Start(str).value {
      ScanSound(str, k - 1);
      var s := Scan(str, k - 1).value;
      StepKeeps(s, str[k - 1], k == |str|);
      StepReads(s, str[k - 1], k == |str|);
      assert str[..k] == str[..k - 1] + [str[k - 1]];
      if Read(s) == [] && str[k - 1] == ':' {
        assert k == 2;
        assert str[..2] == "::";
      }
    }
  }

  lemma NothingRead()
    ensures var s := Parts([], false, [], ""); Reachable(s) && Read(s) == [] && MayEnd(s, false)
  {}

  /** Every reachable state is reached by its text. */
  lemma {:induction false} ScanComplete(str: string, k: nat, s: Parts)
    requires k <= |str| && Reachable(s) && Read(s) == str[..k] && (k == |str| ==> MayEnd(s, false)) && Start(str).Some?
    ensures k >= Start(str).value ==> Scan(str, k) == Some(s)
    ensures k > 0 ==> k > Start(str).value
  {
    hide Coloned, HexValue, MayEnd;
    ColonedNone();
    if k == 0 {
      NoText(s);
    } else {
      HeadOf(s);
      assert str[0] == Read(s)[0];
      if s.left == [] && s.gap && s.right == [] && s.current == "" {
        assert str[..2][1] == ':';
        assert Scan(str, 1) == Some(Parts([], false, [], ""));
      } else {
        var before := Before(s);
        BeforeReads(s);
        assert str[..k - 1] == Read(before) && str[k - 1] == Read(s)[k - 1];
        ScanComplete(str, k - 1, before);
        StepBack(s, k == |str|);
      }
    }
  }

  lemma NoText(s: Parts)
    requires Reachable(s) && Read(s) == []
    ensures s == Parts([], false, [], "")
  {
    if s.left != [] {
      ColonedHead(s.left);
    }
  }

  /** The state before the last character of a text. */
  function Before(s: Parts): Parts {
    if s.current != "" then s.(current := s.current[..|s.current| - 1])
    else if s.right != [] then s.(right := s.right[..|s.right| - 1], current := s.right[|s.right| - 1])
    else if s.gap then s.(gap := false)
    else if s.left != [] then s.(left := s.left[..|s.left| - 1], current := s.left[|s.left| - 1])
    else s
  }

  lemma BeforeReads(s: Parts)
    requires Reachable(s) && Read(s) != [] && !(s.left == [] && s.gap && s.right == [] && s.current == "")
    ensures Reachable(Before(s)) && Read(Before(s)) == Read(s)[..|Read(s)| - 1]
    ensures Read(s)[|Read(s)| - 1] == if s.current != "" then s.current[|s.current| - 1] else ':'
  {
    hide Coloned;
    ColonedNone();
    if s.current == "" {
      if s.right != [] {
        var n := |s.right| - 1;
        assert s.right == s.right[..n] + [s.right[n]];
        ColonedMore(s.right[..n], s.right[n]);
      } else if !s.gap && s.left != [] {
        var n := |s.left| - 1;
        assert s.left == s.left[..n] + [s.left[n]];
        ColonedMore(s.left[..n], s.left[n]);
      }
    }
  }

  lemma StepBack(s: Parts, last: bool)
    requires Reachable(s) && Read(s) != [] && (last ==> MayEnd(s, false))
    requires !(s.left == [] && s.gap && s.right == [] && s.current == "")
    ensures Step(Before(s), if s.current != "" then s.current[|s.current| - 1] else ':', last) == Some(s)
  {
    hide Coloned;
    if s.current != "" {
      assert s.current == s.current[..|s.current| - 1] + [s.current[|s.current| - 1]];
    } else if s.right != [] {
      assert Group(s.right[|s.right| - 1]);
      assert s.right == s.right[..|s.right| - 1] + [s.right[|s.right| - 1]];
    } else if !s.gap && s.left != [] {
      assert Group(s.left[|s.left| - 1]);
      assert s.left == s.left[..|s.left| - 1] + [s.left[|s.left| - 1]];
    } else if !s.gap {
      ColonedNone();
      assert false;
    }
  }

  /** A text that reads as something begins well, and its scan is past the beginning. */
  lemma StartsWell(str: string, s: Parts)
    requires Reachable(s) && str[..BodyLength(str)] == Read(s)
    ensures Start(str).Some?
  {
    hide Coloned, Reachable, Read;
    var n := BodyLength(str);
    if n > 0 {
      HeadOf(s);
      assert str[0] == str[..n][0];
      assert n >= 2 ==> str[1] == str[..n][1] && (Read(s)[..2] == "::" ==> Read(s)[..2][1] == ':');
    }
  }

  lemma PastStart(str: string)
    requires Start(str).Some?
    ensures Start(str).value <= BodyLength(str) && (BodyLength(str) > 0 ==> Start(str).value < BodyLength(str))
  {
    assert Start(str).value == 1 ==> str[1..][0] == ':';
  }

  lemma ZoneEnds(s: Parts)
    ensures MayEnd(s, true) && (MayEnd(s, false) ==> forall z :: MayEnd(s, z))
  {}

  /** What a string reads as is what its scan ends with. */
  lemma ReadsIff(str: string, s: Parts, a: seq<byte>)
    ensures ReadsAs(str, s, a) <==> Scan(str, BodyLength(str)) == Some(s) && Reachable(s) && Address(s) == Some(a)
  {
    hide Scan, Coloned, Read, Address, Reachable, BodyLength, MayEnd, Start;
    var n := BodyLength(str);
    NothingRead();
    ZoneEnds(s);
    if ReadsAs(str, s, a) {
      StartsWell(str, s);
      PastStart(str);
      ScanComplete(str, n, s);
    }
    if Scan(str, n) == Some(s) {
      ScanSound(str, n);
      PastStart(str);
      assert n == 0 ==> str[..n] == [];
    }
  }

  // ----- parsing

  lemma {:induction false} ScanStops(str: string, k: nat, n: nat)
    requires k <= n <= |str| && Scan(str, k) == None
    ensures Scan(str, n) == None
  {
    if k < n {
      ScanStops(str, k, n - 1);
    }
  }

  lemma Refused(str: string, k: nat)
    requires k <= BodyLength(str) && Scan(str, k) == None
    ensures forall s, a :: !ReadsAs(str, s, a)
  {
    hide ReadsAs, BodyLength, Scan;
    ScanStops(str, k, BodyLength(str));
    forall s, a ensures !ReadsAs(str, s, a) {
      ReadsIff(str, s, a);
    }
  }

  lemma Unfinished(str: string, s: Parts)
    requires Scan(str, BodyLength(str)) == Some(s) && Reachable(s) && Address(s) == None
    ensures forall t, a :: !ReadsAs(str, t, a)
  {
    hide ReadsAs, BodyLength, Scan, Address;
    forall t, a ensures !ReadsAs(str, t, a) {
      ReadsIff(str, t, a);
    }
  }

  lemma BadStart(str: string)
    requires Start(str).None?
    ensures forall s, a :: !ReadsAs(str, s, a)
  {
    Refused(str, 0);
  }

  lemma ValuesMore(a: seq<string>, g: string)
    requires Groups(a) && Group(g)
    ensures Groups(a + [g]) && HexValue(g) < 0x1_0000 && Values(a + [g]) == Values(a) + [HexValue(g) / 256, HexValue(g) % 256]
  {
    hide HexValue;
    HexBound(g);
    assert (a + [g])[..|a|] == a;
  }

  lemma {:induction false} ValuesJoin(a: seq<string>, b: seq<string>)
    requires Groups(a) && Groups(b)
    ensures Groups(a + b) && Values(a + b) == Values(a) + Values(b)
  {
    hide HexValue, Values;
    if b == [] {
      ValuesNone();
      assert a + b == a;
    } else {
      var k := |b| - 1;
      ValuesJoin(a, b[..k]);
      assert b == b[..k] + [b[k]] && a + b == (a + b[..k]) + [b[k]];
      ValuesMore(b[..k], b[k]);
      ValuesMore(a + b[..k], b[k]);
    }
  }

  lemma ValuesOne(g: string)
    requires Group(g)
    ensures Groups([g]) && HexValue(g) < 0x1_0000 && Values([g]) == [HexValue(g) / 256, HexValue(g) % 256]
  {
    HexBound(g);
    assert Values([]) == [];
  }

  /** The parser's variables, in the state of the scan. */
  ghost predicate Holds(s: Parts, tmp: seq<byte>, tp: nat, colonp: int, seen: nat, val: nat) {
    && Reachable(s) && Groups(s.left + s.right) && tp == 2 * (|s.left| + |s.right|)
    && tmp == Values(s.left + s.right) + Zeros(16 - tp)
    && colonp == (if s.gap then 2 * |s.left| else -1)
    && seen == |s.current| && val == HexValue(s.current)
  }

  /** The parts with the group in progress completed. */
  function Completed(s: Parts): Parts {
    if s.gap then s.(right := s.right + [s.current], current := "") else s.(left := s.left + [s.current], current := "")
  }

  /** A completed group is put at the end. */
  lemma HoldsPut(s: Parts, tmp: seq<byte>, tp: nat, colonp: int, seen: nat, val: nat)
    requires Holds(s, tmp, tp, colonp, seen, val) && seen > 0 && tp + 2 <= 16
    ensures |tmp| == 16 && val < 0x1_0000 && s.current != ""
    ensures Holds(Completed(s), tmp[tp := val / 256][tp + 1 := val % 256], tp + 2, colonp, 0, 0)
  {
    hide Values, HexValue;
    var all := s.left + s.right;
    ValuesOne(s.current);
    ValuesJoin(all, [s.current]);
    HexNone();
    var put := tmp[tp := val / 256][tp + 1 := val % 256];
    assert put == Values(all) + [val / 256, val % 256] + Zeros(14 - tp);
    if s.gap {
      assert s.left + (s.right + [s.current]) == all + [s.current];
    } else {
      assert (s.left + [s.current]) + s.right == all + [s.current];
    }
  }

  lemma HexNone()
    ensures HexValue("") == 0
  {}

  lemma HoldsDigit(s: Parts, tmp: seq<byte>, tp: nat, colonp: int, seen: nat, val: nat, ch: char)
    requires Holds(s, tmp, tp, colonp, seen, val) && IsHex(ch) && seen < 4
    ensures Holds(s.(current := s.current + [ch]), tmp, tp, colonp, seen + 1, val * 16 + HexDigit(ch))
  {
    hide Values;
    assert (s.current + [ch])[..|s.current|] == s.current;
  }

  /** The whole text has been read: closing the gap, if there is one, leaves the address. */
  lemma HoldsAddress(s: Parts, tmp: seq<byte>, tp: nat, colonp: int)
    requires Holds(s, tmp, tp, colonp, 0, 0)
    ensures |tmp| == 16 && tp <= 16 && colonp <= tp && (colonp == -1 || 0 <= colonp)
    ensures Address(s) == if colonp == -1 then (if tp == 16 then Some(tmp) else None)
                          else if tp == 16 then None
                          else Some(tmp[..colonp] + Zeros(16 - tp) + tmp[colonp..tp])
  {
    hide HexValue, Values;
    ValuesJoin(s.left, s.right);
    ValuesNone();
    assert s.current == "";
    if !s.gap {
      assert s.left + s.right == s.left;
      assert tp == 16 ==> Values(s.left) + Zeros(0) + [] == tmp;
    } else {
      assert tmp[..colonp] == Values(s.left) && tmp[colonp..tp] == Values(s.right);
    }
  }

  lemma ValuesNone()
    ensures Values([]) == [] && Zeros(0) == []
  {}

  /** A text may end with a group in progress, which then counts like the others. */
  lemma LastGroup(s: Parts)
    requires Reachable(s) && s.current != ""
    ensures |s.left| + |s.right| == 8 ==> Address(s) == None
    ensures |s.left| + |s.right| < 8 ==>
              Reachable(Completed(s)) && Address(Completed(s)) == Address(s)
  {
    hide Values;
  }

  lemma StartHolds(str: string)
    requires Start(str).Some?
    ensures Start(str).value <= BodyLength(str) && Scan(str, Start(str).value) == Some(Parts([], false, [], ""))
    ensures Holds(Parts([], false, [], ""), Zeros(16), 0, -1, 0, 0)
  {
    PastStart(str);
    ValuesNone();
    assert [] + Zeros(16) == Zeros(16);
  }

  lemma BodyGoes(str: string, k: nat)
    requires k <= BodyLength(str)
    ensures k < BodyLength(str) <==> k < |str| && str[k] != '%'
  {}

  /** Writing a completed group, high byte first. */
  method PutGroup(tmp: array<byte>, tp: nat, val: nat, ghost s: Parts, ghost colonp: int, ghost seen: nat)
    requires Holds(s, tmp[..], tp, colonp, seen, val) && seen > 0 && tp + 2 <= 16
    modifies tmp
    ensures Holds(Completed(s), tmp[..], tp + 2, colonp, 0, 0)
  {
    hide Holds, Completed;
    HoldsPut(s, tmp[..], tp, colonp, seen, val);
    ghost var put := tmp[..][tp := val / 256][tp + 1 := val % 256];
    tmp[tp], tmp[tp + 1] := val / 256 % 256, val % 256;
    assert tmp[..] == put;
  }

  /** Closing the gap: what follows it moves to the end, and zeros take its place. */
  method CloseGap(tmp: array<byte>, colonp: nat, tp: nat)
    requires tmp.Length == 16 && colonp <= tp < 16 && forall j :: tp <= j < 16 ==> tmp[j] == 0
    modifies tmp
    ensures tmp[..] == old(tmp[..colonp]) + Zeros(16 - tp) + old(tmp[colonp..tp])
  {
    hide Shifted;
    ghost var was := tmp[..];
    var n, i := tp - colonp, 1;
    ShiftStart(was, tp);
    while i <= n
      invariant 1 <= i <= n + 1 && Shifted(tmp[..], was, tp, i - 1)
    {
      ghost var t := tmp[..];
      ShiftStep(t, was, tp, i);
      tmp[16 - i] := tmp[colonp + n - i];
      tmp[colonp + n - i] := 0;
      assert tmp[..] == t[16 - i := t[tp - i]][tp - i := 0];
      i := i + 1;
    }
    GapClosed(tmp[..], was, colonp, tp);
    assert was[..colonp] == old(tmp[..colonp]) && was[colonp..tp] == old(tmp[colonp..tp]);
  }

  /** The last `k` of the first `tp` bytes have moved to the end, and zeros are where they were. */
  ghost predicate Shifted(t: seq<byte>, was: seq<byte>, tp: nat, k: nat) {
    && |t| == |was| == 16 && k <= tp < 16
    && (forall j :: 16 - k <= j < 16 ==> t[j] == was[j - (16 - tp)])
    && (forall j :: 0 <= j < 16 - k ==> t[j] == if tp - k <= j < tp then 0 else was[j])
  }

  lemma ShiftStart(was: seq<byte>, tp: nat)
    requires |was| == 16 && tp < 16
    ensures Shifted(was, was, tp, 0)
  {}

  lemma ShiftStep(t: seq<byte>, was: seq<byte>, tp: nat, i: nat)
    requires 1 <= i <= tp && Shifted(t, was, tp, i - 1)
    ensures |t| == 16 && tp < 16 && Shifted(t[16 - i := t[tp - i]][tp - i := 0], was, tp, i)
  {}

  lemma GapClosed(t: seq<byte>, was: seq<byte>, colonp: nat, tp: nat)
    requires colonp <= tp && Shifted(t, was, tp, tp - colonp) && forall j :: tp <= j < 16 ==> was[j] == 0
    ensures t == was[..colonp] + Zeros(16 - tp) + was[colonp..tp]
  {}

  /**
    fnet_inet_pton_ip6: accepts exactly the texts of addresses - eight groups, or fewer and one gap - with any
    zone, and a colon too many when a zone follows it.
   */
  method Parse(str: Text) returns (r: Option<seq<byte>>)
    ensures r.Some? ==> exists s :: ReadsAs(str, s, r.value)
    ensures r.None? ==> forall s, a :: !ReadsAs(str, s, a)
  {
    hide Scan, Address, Holds, ReadsAs, BodyLength, Values, HexValue, Reachable;
    var tmp := new byte[16](_ => 0);
    var tp, colonp, seen, val := 0, -1, 0, 0;
    var k := 0;
    if |str| > 0 && str[0] == ':' {
      k := 1;
      if |str| < 2 || str[1] != ':' {
        BadStart(str);
        return None;
      }
    }
    ghost var s := Parts([], false, [], "");
    StartHolds(str);
    assert tmp[..] == Zeros(16);
    while k < |str| && str[k] != '%'
      invariant k <= BodyLength(str) && Scan(str, k) == Some(s) && 0 <= tp && 0 <= seen && 0 <= val
      invariant Holds(s, tmp[..], tp, colonp, seen, val)
      decreases |str| - k
    {
      var ch := str[k];
      BodyGoes(str, k);
      ScanNext(str, k);
      HoldsBounds(s, tmp[..], tp, colonp, seen, val);
      k := k + 1;
      if IsHex(ch) {
        seen := seen + 1;
        if seen > 4 {
          Refused(str, k);
          return None;
        }
        HoldsDigit(s, tmp[..], tp, colonp, seen - 1, val, ch);
        val := val * 16 + HexDigit(ch);
        s := s.(current := s.current + [ch]);
      } else if ch == ':' && seen == 0 {
        if colonp != -1 {
          Refused(str, k);
          return None;
        }
        HoldsGap(s, tmp[..], tp, val);
        colonp := tp;
        s := s.(gap := true);
      } else if ch == ':' {
        if k == |str| || tp + 2 > 16 {
          Refused(str, k);
          return None;
        }
        PutGroup(tmp, tp, val, s, colonp, seen);
        s := Completed(s);
        tp, seen, val := tp + 2, 0, 0;
      } else {
        Refused(str, k);
        return None;
      }
    }
    BodyGoes(str, k);
    HoldsBounds(s, tmp[..], tp, colonp, seen, val);
    r := Finish(str, tmp, tp, colonp, seen, val, s);
  }

  /** The end of the parser: the last group, and the gap closed. */
  method Finish(str: string, tmp: array<byte>, tp0: nat, colonp: int, seen: nat, val: nat, ghost end: Parts) returns (r: Option<seq<byte>>)
    requires Scan(str, BodyLength(str)) == Some(end) && Reachable(end) && Holds(end, tmp[..], tp0, colonp, seen, val)
    requires tmp.Length == 16 && tp0 <= 16 && tp0 == 2 * (|end.left| + |end.right|) && seen == |end.current| <= 4
    modifies tmp
    ensures r.Some? ==> exists s :: ReadsAs(str, s, r.value)
    ensures r.None? ==> forall s, a :: !ReadsAs(str, s, a)
  {
    hide Scan, Address, Holds, ReadsAs, BodyLength, Values, HexValue, Reachable;
    var tp := tp0;
    ghost var s := end;
    HoldsBounds(s, tmp[..], tp, colonp, seen, val);
    if seen != 0 {
      LastGroup(s);
      if tp + 2 > 16 {
        Unfinished(str, s);
        return None;
      }
      PutGroup(tmp, tp, val, s, colonp, seen);
      s := Completed(s);
      tp := tp + 2;
    } else {
      HexNone();
    }
    HoldsAddress(s, tmp[..], tp, colonp);
    HoldsZeros(s, tmp[..], tp, colonp, 0, 0);
    if (colonp != -1 && tp == 16) || (colonp == -1 && tp != 16) {
      Unfinished(str, end);
      return None;
    }
    if colonp != -1 {
      ghost var before := tmp[..];
      CloseGap(tmp, colonp, tp);
      assert tmp[..] == before[..colonp] + Zeros(16 - tp) + before[colonp..tp];
    }
    r := Some(tmp[..]);
    ReadsIff(str, end, tmp[..]);
  }

  lemma ScanNext(str: string, k: nat)
    requires k < |str| && Start(str).Some? && Start(str).value <= k
    ensures Scan(str, k + 1) == match Scan(str, k) case None => None case Some(s) => Step(s, str[k], k + 1 == |str|)
  {}

  lemma HoldsBounds(s: Parts, tmp: seq<byte>, tp: nat, colonp: int, seen: nat, val: nat)
    requires Holds(s, tmp, tp, colonp, seen, val)
    ensures Reachable(s) && |tmp| == 16 && tp <= 16 && tp == 2 * (|s.left| + |s.right|) && seen == |s.current| <= 4
    ensures s.gap <==> colonp != -1
    ensures seen == 0 ==> s.current == "" && val == 0
  {
    hide Values;
    if seen == 0 {
      assert s.current == "";
    }
  }

  lemma HoldsGap(s: Parts, tmp: seq<byte>, tp: nat, val: nat)
    requires Holds(s, tmp, tp, -1, 0, val)
    ensures Holds(s.(gap := true), tmp, tp, tp, 0, val)
  {
    hide Values;
  }

  lemma HoldsZeros(s: Parts, tmp: seq<byte>, tp: nat, colonp: int, seen: nat, val: nat)
    requires Holds(s, tmp, tp, colonp, seen, val)
    ensures |tmp| == 16 && forall j :: tp <= j < 16 ==> tmp[j] == 0
  {
    hide Values, HexValue;
  }

  /** A text reads as one address at most. */
  lemma ReadsUnique(str: string, s: Parts, a: seq<byte>, t: Parts, b: seq<byte>)
    requires ReadsAs(str, s, a) && ReadsAs(str, t, b)
    ensures s == t && a == b
  {
    hide ReadsAs, Scan, BodyLength, Address, Reachable;
    ReadsIff(str, s, a);
    ReadsIff(str, t, b);
  }

  // ----- printing

  /** The eight 16-bit words of an address. */
  function Words16(a: seq<byte>): (ws: seq<Short>)
    requires |a| == 16
    ensures |ws| == 8 && forall i :: 0 <= i < 8 ==> ws[i] == Word(a[2 * i], a[2 * i + 1])
  {
    seq(8, i requires 0 <= i < 8 => Word(a[2 * i], a[2 * i + 1]))
  }

  function Word(hi: byte, lo: byte): Short {
    hi as int * 256 + lo as int
  }

  ghost predicate ZeroRun(ws: seq<Short>, base: nat, len: nat) {
    base + len <= |ws| && forall i :: base <= i < base + len ==> ws[i] == 0
  }

  /** The first longest run of zero words in `ws[..n]`; none is longer, and none as long begins before it. */
  ghost predicate BestRun(ws: seq<Short>, n: nat, base: nat, len: nat) {
    && n <= |ws| && base + len <= n && ZeroRun(ws, base, len)
    && (forall b: nat, l: nat :: b + l <= n && ZeroRun(ws, b, l) ==> l < len || (l == len && (len == 0 || base <= b)))
  }

  /** What `::` replaces: the first longest run of at least two zero words, or nothing. */
  ghost predicate Compressed(ws: seq<Short>, base: int, len: nat) {
    if base == -1 then forall b: nat, l: nat :: ZeroRun(ws, b, l) ==> l < 2
    else 0 <= base && 2 <= len && BestRun(ws, |ws|, base, len)
  }

  function HexAll(ws: seq<Short>): (gs: seq<string>)
    ensures |gs| == |ws| && forall i :: 0 <= i < |ws| ==> gs[i] == Hex(ws[i])
  {
    if ws == [] then [] else HexAll(ws[..|ws| - 1]) + [Hex(ws[|ws| - 1])]
  }

  /** The parts of the text printed for the first `n` of the words, with the last one in progress. */
  function PartsOf(ws: seq<Short>, base: int, len: nat, n: nat): Parts
    requires n <= |ws| && (base == -1 || (0 <= base && base + len <= |ws|))
  {
    if base == -1 || n <= base then
      if n == 0 then Parts([], false, [], "") else Parts(HexAll(ws[..n - 1]), false, [], Hex(ws[n - 1]))
    else if n <= base + len then Parts(HexAll(ws[..base]), true, [], "")
    else Parts(HexAll(ws[..base]), true, HexAll(ws[base + len..n - 1]), Hex(ws[n - 1]))
  }

  /** The text printed for the first `n` words: inside the run, its second colon is still to come. */
  function TextSoFar(ws: seq<Short>, base: int, len: nat, n: nat): string
    requires n <= |ws| && (base == -1 || (0 <= base && base + len <= |ws|))
  {
    if base != -1 && base < n <= base + len then Coloned(HexAll(ws[..base])) + if base == 0 then ":" else ""
    else Read(PartsOf(ws, base, len, n))
  }

  lemma HexAllMore(ws: seq<Short>, n: nat)
    requires n < |ws|
    ensures HexAll(ws[..n + 1]) == HexAll(ws[..n]) + [Hex(ws[n])]
  {
    assert ws[..n + 1][..n] == ws[..n];
  }

  lemma HexAllSlice(ws: seq<Short>, lo: nat, n: nat)
    requires lo <= n < |ws|
    ensures HexAll(ws[lo..n + 1]) == HexAll(ws[lo..n]) + [Hex(ws[n])]
  {
    assert ws[lo..n + 1][..n - lo] == ws[lo..n];
  }

  lemma HexAllNone()
    ensures HexAll([]) == []
  {}

  lemma TextWords(ws: seq<Short>, n: nat)
    requires n < |ws|
    ensures Read(PartsOf(ws, -1, 0, n + 1)) == Read(PartsOf(ws, -1, 0, n)) + (if n != 0 then ":" else "") + Hex(ws[n])
  {
    hide Coloned, Hex, HexAll;
    ColonedNone();
    HexAllNone();
    assert ws[..0] == [];
    if n > 0 {
      HexAllMore(ws, n - 1);
      ColonedMore(HexAll(ws[..n - 1]), Hex(ws[n - 1]));
    }
  }

  lemma TextRun(ws: seq<Short>, base: nat)
    requires base < |ws|
    ensures Read(PartsOf(ws, -1, 0, base)) + ":" == Coloned(HexAll(ws[..base])) + if base == 0 then ":" else ""
  {
    hide Coloned, Hex, HexAll;
    ColonedNone();
    HexAllNone();
    assert ws[..0] == [];
    if base > 0 {
      HexAllMore(ws, base - 1);
      ColonedMore(HexAll(ws[..base - 1]), Hex(ws[base - 1]));
    }
  }

  lemma TextFirstAfter(ws: seq<Short>, base: nat, len: nat)
    requires 0 < len && base + len < |ws|
    ensures TextSoFar(ws, base, len, base + len + 1) == TextSoFar(ws, base, len, base + len) + ":" + Hex(ws[base + len])
  {
    hide Coloned, Hex, HexAll;
    ColonedNone();
    HexAllNone();
    assert ws[base + len..base + len] == [];
    assert |HexAll(ws[..base])| == base;
  }

  lemma TextMoreAfter(ws: seq<Short>, base: nat, len: nat, n: nat)
    requires 0 < len && base + len < n < |ws|
    ensures TextSoFar(ws, base, len, n + 1) == TextSoFar(ws, base, len, n) + ":" + Hex(ws[n])
  {
    hide Coloned, Hex, HexAll;
    HexAllSlice(ws, base + len, n - 1);
    ColonedMore(HexAll(ws[base + len..n - 1]), Hex(ws[n - 1]));
  }

  /** Printing one more word, or one more of the run. */
  lemma TextMore(ws: seq<Short>, base: int, len: nat, n: nat)
    requires n < |ws| && (base == -1 || (0 <= base && 2 <= len && base + len <= |ws|))
    ensures TextSoFar(ws, base, len, n + 1)
         == TextSoFar(ws, base, len, n)
          + if base != -1 && base <= n < base + len then (if n == base then ":" else "")
            else (if n != 0 then ":" else "") + Hex(ws[n])
  {
    hide Coloned, Hex, HexAll, Read;
    if base == -1 || n < base {
      TextWords(ws, n);
    } else if n < base + len {
      TextRun(ws, base);
    } else if n == base + len {
      TextFirstAfter(ws, base, len);
    } else {
      TextMoreAfter(ws, base, len, n);
    }
  }

  /** The text of all the words: the run's second colon comes last if the run does. */
  function Printed6(ws: seq<Short>, base: int, len: nat): string
    requires base == -1 || (0 <= base && base + len <= |ws|)
  {
    Read(PartsOf(ws, base, len, |ws|))
  }

  lemma TextAll(ws: seq<Short>, base: int, len: nat)
    requires base == -1 || (0 <= base && 0 < len && base + len <= |ws|)
    ensures Printed6(ws, base, len) == TextSoFar(ws, base, len, |ws|) + if base != -1 && base + len == |ws| then ":" else ""
  {
    hide Coloned, HexAll;
    ColonedNone();
  }

  lemma TextNone(ws: seq<Short>, base: int, len: nat)
    requires base == -1 || (0 <= base && base + len <= |ws|)
    ensures TextSoFar(ws, base, len, 0) == ""
  {
    ColonedNone();
  }

  // ----- what is printed reads back

  lemma HexGroups(ws: seq<Short>)
    ensures Groups(HexAll(ws)) && forall i :: 0 <= i < |ws| ==> Group(Hex(ws[i]))
  {}

  lemma {:induction false} ValuesOfHex(ws: seq<Short>)
    ensures Groups(HexAll(ws)) && |Values(HexAll(ws))| == 2 * |ws|
    ensures forall i :: 0 <= i < |ws| ==> Values(HexAll(ws))[2 * i] == ws[i] / 256 && Values(HexAll(ws))[2 * i + 1] == ws[i] % 256
  {
    hide Hex, HexValue;
    HexGroups(ws);
    if ws != [] {
      ValuesOfHex(ws[..|ws| - 1]);
      HexInverse(ws[|ws| - 1]);
      ValuesJoin(HexAll(ws[..|ws| - 1]), [Hex(ws[|ws| - 1])]);
      ValuesOne(Hex(ws[|ws| - 1]));
    }
  }

  /** The words of an address and its bytes say the same. */
  lemma ValuesOfWords(a: seq<byte>)
    requires |a| == 16
    ensures Groups(HexAll(Words16(a))) && Values(HexAll(Words16(a))) == a
  {
    hide HexAll, Values, Groups, Words16;
    var ws := Words16(a);
    ValuesOfHex(ws);
    forall k | 0 <= k < 16 ensures Values(HexAll(ws))[k] == a[k] {
      var i := k / 2;
      WordBytes(a, i);
      assert k == 2 * i || k == 2 * i + 1;
    }
  }

  lemma WordBytes(a: seq<byte>, i: nat)
    requires |a| == 16 && i < 8
    ensures Words16(a)[i] / 256 == a[2 * i] && Words16(a)[i] % 256 == a[2 * i + 1]
  {
    assert Words16(a)[i] == Word(a[2 * i], a[2 * i + 1]);
  }

  lemma HexAllJoin(x: seq<Short>, y: seq<Short>)
    ensures HexAll(x + y) == HexAll(x) + HexAll(y)
  {
    hide Hex;
  }

  lemma ZeroValues(n: nat)
    ensures var zs: seq<Short> := seq(n, _ => 0); Groups(HexAll(zs)) && Values(HexAll(zs)) == Zeros(2 * n)
  {
    hide HexAll, Values, Groups;
    var zs: seq<Short> := seq(n, _ => 0);
    ValuesOfHex(zs);
    forall k | 0 <= k < 2 * n ensures Values(HexAll(zs))[k] == 0 {
      var i := k / 2;
      assert zs[i] == 0;
    }
  }

  /** Leaving out a run of zeros from the words of an address. */
  lemma GapValues(a: seq<byte>, base: nat, len: nat)
    requires |a| == 16 && base + len <= 8 && ZeroRun(Words16(a), base, len)
    ensures var ws := Words16(a);
            && Groups(HexAll(ws[..base])) && Groups(HexAll(ws[base + len..]))
            && Values(HexAll(ws[..base])) + Zeros(2 * len) + Values(HexAll(ws[base + len..])) == a
  {
    hide HexAll, Values, Groups;
    var ws := Words16(a);
    var zs: seq<Short> := seq(len, _ => 0);
    assert ws == ws[..base] + zs + ws[base + len..];
    HexAllJoin(ws[..base] + zs, ws[base + len..]);
    HexAllJoin(ws[..base], zs);
    HexGroups(ws[..base]);
    HexGroups(zs);
    HexGroups(ws[base + len..]);
    ValuesJoin(HexAll(ws[..base]), HexAll(zs));
    ValuesJoin(HexAll(ws[..base]) + HexAll(zs), HexAll(ws[base + len..]));
    ZeroValues(len);
    ValuesOfWords(a);
  }

  lemma LastHex(ws: seq<Short>, lo: nat)
    requires lo < |ws|
    ensures HexAll(ws[lo..|ws| - 1]) + [Hex(ws[|ws| - 1])] == HexAll(ws[lo..])
  {
    hide Hex;
    HexAllSlice(ws, lo, |ws| - 1);
    assert ws[lo..|ws| - 1 + 1] == ws[lo..];
  }

  lemma WholeParts(a: seq<byte>)
    requires |a| == 16
    ensures var s := PartsOf(Words16(a), -1, 0, 8); Reachable(s) && Address(s) == Some(a)
  {
    hide Values, HexValue, Hex, HexAll, Words16, Coloned, Groups;
    var ws := Words16(a);
    HexGroups(ws);
    ZerosNone();
    assert ws[0..7] == ws[..7] && ws[0..] == ws;
    LastHex(ws, 0);
    HexGroups(ws[..7]);
    ValuesOfWords(a);
    assert a + [] + [] == a;
  }

  lemma GapParts(a: seq<byte>, base: nat, len: nat)
    requires |a| == 16 && 0 < len && base + len <= 8 && ZeroRun(Words16(a), base, len)
    ensures var s := PartsOf(Words16(a), base, len, 8); Reachable(s) && Address(s) == Some(a)
  {
    hide Values, HexValue, Hex, HexAll, Words16, Coloned, Groups, ZeroRun;
    var ws := Words16(a);
    HexGroups(ws);
    ZerosNone();
    GapValues(a, base, len);
    if base + len < 8 {
      LastHex(ws, base + len);
      HexGroups(ws[base + len..7]);
    } else {
      assert ws[base + len..] == [];
      HexAllNone();
    }
  }

  lemma PartsFit(ws: seq<Short>, base: int, len: nat)
    requires |ws| == 8 && (base == -1 || (0 <= base && 2 <= len && base + len <= 8))
    ensures var s := PartsOf(ws, base, len, 8); MayEnd(s, false) && |Read(s)| < 40
  {
    hide HexAll, Coloned;
    ZerosNone();
    if base == -1 {
      HexGroups(ws[..7]);
      ColonedLength(HexAll(ws[..7]));
    } else {
      HexGroups(ws[..base]);
      ColonedLength(HexAll(ws[..base]));
      if base + len < 8 {
        HexGroups(ws[base + len..7]);
        ColonedLength(HexAll(ws[base + len..7]));
      }
    }
  }

  /** The parts of the printed text of an address are those of that address. */
  lemma PrintedParts(a: seq<byte>, base: int, len: nat)
    requires |a| == 16 && Compressed(Words16(a), base, len)
    requires base == -1 || (0 <= base && 2 <= len && base + len <= 8)
    ensures var s := PartsOf(Words16(a), base, len, 8);
            Reachable(s) && Address(s) == Some(a) && MayEnd(s, false) && |Read(s)| < 40
  {
    hide Words16, Reachable, Address, MayEnd, Read;
    PartsFit(Words16(a), base, len);
    if base == -1 {
      WholeParts(a);
    } else {
      GapParts(a, base, len);
    }
  }

  lemma ZerosNone()
    ensures Groups([]) && Values([]) == [] && Zeros(0) == [] && Coloned([]) == []
  {}

  lemma {:induction false} ColonedLength(gs: seq<string>)
    requires Groups(gs)
    ensures |Coloned(gs)| <= 5 * |gs|
  {
    if gs != [] {
      assert Group(gs[|gs| - 1]);
      ColonedLength(gs[..|gs| - 1]);
    }
  }

  lemma {:induction false} ColonedChars(gs: seq<string>)
    requires Groups(gs)
    ensures forall k :: 0 <= k < |Coloned(gs)| ==> IsHex(Coloned(gs)[k]) || Coloned(gs)[k] == ':'
  {
    hide IsHex;
    if gs != [] {
      assert Group(gs[|gs| - 1]);
      ColonedChars(gs[..|gs| - 1]);
    }
  }

  lemma {:induction false} WholeBody(str: string)
    requires forall k :: 0 <= k < |str| ==> str[k] != '%'
    ensures BodyLength(str) == |str|
  {}

  lemma ReadChars(s: Parts)
    requires Reachable(s)
    ensures forall k :: 0 <= k < |Read(s)| ==> IsHex(Read(s)[k]) || Read(s)[k] == ':'
  {
    hide Coloned, IsHex;
    ColonedChars(s.left);
    ColonedChars(s.right);
  }

  /** The printed text of an address reads as it, and fits. */
  lemma RoundTrip(a: seq<byte>, base: int, len: nat)
    requires |a| == 16 && Compressed(Words16(a), base, len)
    ensures ReadsAs(Printed6(Words16(a), base, len), PartsOf(Words16(a), base, len, 8), a)
    ensures '\0' !in Printed6(Words16(a), base, len) && |Printed6(Words16(a), base, len)| < 40
  {
    hide Read, Address, Words16, PartsOf, Reachable, MayEnd, Compressed, BodyLength;
    CompressedFits(Words16(a), base, len);
    PrintedParts(a, base, len);
    var s := PartsOf(Words16(a), base, len, 8);
    ReadChars(s);
    WholeBody(Read(s));
    assert Read(s)[..|Read(s)|] == Read(s);
    ZoneEnds(s);
  }

  lemma CompressedFits(ws: seq<Short>, base: int, len: nat)
    requires Compressed(ws, base, len)
    ensures base == -1 || (0 <= base && 2 <= len && base + len <= |ws|)
  {}

  // ----- the longest run

  /** The best run of `ws[..n]` so far; -1 when no word there is zero. */
  ghost predicate Best(ws: seq<Short>, n: nat, base: int, len: nat) {
    && n <= |ws|
    && if base == -1 then forall b: nat, l: nat :: b + l <= n && ZeroRun(ws, b, l) ==> l == 0
       else 0 <= base && 0 < len && BestRun(ws, n, base, len)
  }

  /** A run that ends at `i` competes with the best before it. */
  lemma BestWithRun(ws: seq<Short>, base: int, len: nat, from: nat, i: nat)
    requires from < i <= |ws| && Best(ws, from, base, len) && ZeroRun(ws, from, i - from) && (from == 0 || ws[from - 1] != 0)
    ensures if base == -1 || i - from > len then Best(ws, i, from, i - from) else Best(ws, i, base, len)
  {
    forall b: nat, l: nat | b + l <= i && ZeroRun(ws, b, l)
      ensures l <= i - from || (b + l <= from && l > 0)
      ensures b < from && l > 0 ==> b + l <= from
    {}
  }

  lemma BestSkip(ws: seq<Short>, base: int, len: nat, i: nat)
    requires i < |ws| && Best(ws, i, base, len) && ws[i] != 0
    ensures Best(ws, i + 1, base, len)
  {
    forall b: nat, l: nat | b + l <= i + 1 && ZeroRun(ws, b, l) ensures l == 0 || b + l <= i {}
  }

  lemma BestDone(ws: seq<Short>, base: int, len: nat)
    requires Best(ws, |ws|, base, len)
    ensures Compressed(ws, if base != -1 && len < 2 then -1 else base, len)
  {}

  /** The search of fnet_inet_ntop_ip6 for what `::` is to replace. */
  method LongestRun(ws: seq<Short>) returns (base: int, len: nat)
    requires |ws| == 8
    ensures Compressed(ws, base, len)
  {
    hide BestRun, Best, Compressed;
    var curBase, curLen := -1, 0;
    base, len := -1, 0;
    BestStart(ws);
    var i := 0;
    while i < 8
      invariant 0 <= i <= 8 && -1 <= curBase < i
      invariant curBase != -1 ==> curLen == i - curBase && ZeroRun(ws, curBase, curLen) && (curBase == 0 || ws[curBase - 1] != 0)
      invariant Best(ws, if curBase == -1 then i else curBase, base, len)
      invariant curBase == -1 && i > 0 ==> ws[i - 1] != 0
    {
      if ws[i] == 0 {
        if curBase == -1 {
          curBase, curLen := i, 1;
        } else {
          curLen := curLen + 1;
        }
      } else {
        if curBase != -1 {
          BestWithRun(ws, base, len, curBase, i);
          if base == -1 || curLen > len {
            base, len := curBase, curLen;
          }
          curBase := -1;
        }
        BestSkip(ws, base, len, i);
      }
      i := i + 1;
    }
    if curBase != -1 {
      BestWithRun(ws, base, len, curBase, i);
      if base == -1 || curLen > len {
        base, len := curBase, curLen;
      }
    }
    BestDone(ws, base, len);
    if base != -1 && len < 2 {
      base := -1;
    }
  }

  lemma BestStart(ws: seq<Short>)
    ensures Best(ws, 0, -1, 0)
  {}

  /**
    fnet_inet_ntop_ip6: the text reads as the address, `::` stands for the first longest run of at least two
    zero words, and a buffer of 40 bytes always holds it.
   */
  method Print(a: seq<byte>, strLen: nat) returns (r: Option<string>, ghost base: int, ghost len: nat)
    requires |a| == 16
    ensures Compressed(Words16(a), base, len) && (base == -1 || (0 <= base && base + len <= 8))
    ensures r.Some? <==> |Printed6(Words16(a), base, len)| < strLen
    ensures r.Some? ==> r.value == Printed6(Words16(a), base, len) && exists s :: ReadsAs(r.value, s, a)
    ensures strLen >= 40 ==> r.Some?
  {
    hide Words16, Compressed, Printed6, TextSoFar, ReadsAs, Hex;
    var ws := Words16(a);
    var runBase, runLen := LongestRun(ws);
    base, len := runBase, runLen;
    CompressedFits(ws, runBase, runLen);
    TextNone(ws, runBase, runLen);
    var text, i := "", 0;
    while i < 8
      invariant 0 <= i <= 8 && text == TextSoFar(ws, runBase, runLen, i)
    {
      TextMore(ws, runBase, runLen, i);
      if runBase != -1 && i >= runBase && i < runBase + runLen {
        if i == runBase {
          text := text + ":";
        }
      } else {
        if i != 0 {
          text := text + ":";
        }
        text := text + Hex(ws[i]);
      }
      i := i + 1;
    }
    if runBase != -1 && runBase + runLen == 8 {
      text := text + ":";
    }
    TextAll(ws, runBase, runLen);
    RoundTrip(a, runBase, runLen);
    if |text| + 1 > strLen {
      return None, runBase, runLen;
    }
    r := Some(text);
  }

  /** Printing and parsing gives the address back. */
  method PrintThenParse(a: seq<byte>) returns (b: Option<seq<byte>>)
    requires |a| == 16
    ensures b == Some(a)
  {
    hide ReadsAs, Words16, Compressed, PartsOf, Printed6;
    var text, base, len := Print(a, 40);
    RoundTrip(a, base, len);
    b := Parse(text.value);
    if b.Some? {
      ghost var s :| ReadsAs(text.value, s, a);
      ghost var t :| ReadsAs(text.value, t, b.value);
      ReadsUnique(text.value, s, a, t, b.value);
    }
  }
}
