/** `parse_ifconfig`: every device of an `ifconfig` listing whose header line
    is followed by a line carrying an IPv4 address becomes one
    "Device: <name>, IP: <address>" record.

    The script finds the devices with the regular expression
    `(\S+): flags.*\n.*inet (\d+\.\d+\.\d+\.\d+)` and `findall`. This module
    states what one match of that expression is (IsHit), gives the matcher
    that tries it at one position (HitAt) and the left-to-right scan that
    `findall` performs (FindAll), and proves that the scan returns exactly the
    non-overlapping matches in text order. */
module Ifconfig {
  import opened PyText
  import opened Options

  const FlagsTag: string := ": flags"
  const InetTag: string := "inet "

  /** `.` in the pattern matches everything except a newline. */
  predicate NoNewline(s: string) {
    forall k :: 0 <= k < |s| ==> s[k] != '\n'
  }

  // ---------------------------------------------------------------------------
  // What one match is

  /** `q` has the shape `\d+\.\d+\.\d+\.\d+`, its dots at `i`, `j` and `k`. */
  predicate QuadShape(q: string, i: nat, j: nat, k: nat) {
    0 < i && i + 1 < j && j + 1 < k && k + 1 < |q| &&
    q[i] == '.' && q[j] == '.' && q[k] == '.' &&
    AllDigits(q[0..i]) && AllDigits(q[i + 1..j]) && AllDigits(q[j + 1..k]) && AllDigits(q[k + 1..|q|])
  }

  ghost predicate IsDottedQuad(q: string) {
    exists i: nat, j: nat, k: nat :: QuadShape(q, i, j, k)
  }

  /** `s[t..e]` is a dotted quad. */
  ghost predicate QuadSpan(s: string, t: nat, e: nat) {
    t <= e <= |s| && IsDottedQuad(s[t..e])
  }

  /** A dotted quad starts at `t`. */
  ghost predicate QuadStartsAt(s: string, t: nat) {
    exists e: nat :: QuadSpan(s, t, e)
  }

  /** `inet ` followed by a dotted quad starts at `r`. */
  ghost predicate InetQuadAt(s: string, r: nat) {
    OccursAt(s, InetTag, r) && QuadStartsAt(s, r + |InetTag|)
  }

  /** `(\S+): flags` at `start`: the device name `s[start..colon]` is a
      non-empty run without whitespace and ": flags" follows it. */
  ghost predicate HeaderAt(s: string, start: nat, colon: nat) {
    start < colon && colon <= |s| && (forall k :: start <= k < colon ==> !IsSpace(s[k])) &&
    OccursAt(s, FlagsTag, colon)
  }

  /** `.*\n` after the header: `lineBreak` is the first newline after it. */
  ghost predicate HeaderLineEndsAt(s: string, colon: nat, lineBreak: nat) {
    colon + |FlagsTag| <= lineBreak < |s| && s[lineBreak] == '\n' &&
    (forall k :: colon + |FlagsTag| <= k < lineBreak ==> s[k] != '\n')
  }

  /** `.*inet (\d+\.\d+\.\d+\.\d+)` on the line after `lineBreak`, the
      address `s[inetAt + 5..end]` keeping every digit of its last number. */
  ghost predicate AddressAt(s: string, lineBreak: nat, inetAt: nat, end: nat) {
    lineBreak < inetAt && inetAt + |InetTag| < end <= |s| &&
    (forall k :: lineBreak < k < inetAt ==> s[k] != '\n') && OccursAt(s, InetTag, inetAt) &&
    IsDottedQuad(s[inetAt + |InetTag|..end]) && (end == |s| || !IsDigit(s[end]))
  }

  /** Greedy `.*`: no `inet` address starts later on the same line. */
  ghost predicate LastAddressOfLine(s: string, inetAt: nat) {
    forall r: nat {:trigger InetQuadAt(s, r)} ::
      inetAt < r <= |s| && NoNewline(s[inetAt..r]) ==> !InetQuadAt(s, r)
  }

  /** One match of the pattern, by position: the device name is
      `s[start..colon]`, the newline ending the header line sits at
      `lineBreak`, and the address is `s[inetAt + 5..end]`. */
  datatype Hit = Hit(name: string, ip: string, start: nat, colon: nat, lineBreak: nat, inetAt: nat, end: nat)

  /** `h` is a match of `(\S+): flags.*\n.*inet (\d+\.\d+\.\d+\.\d+)` in `s`
      starting at `h.start`, with the choices the greedy quantifiers make:
      the last `inet` address of the line and the longest last number. */
  ghost predicate IsHit(s: string, h: Hit) {
    HeaderAt(s, h.start, h.colon) && h.name == s[h.start..h.colon] &&
    HeaderLineEndsAt(s, h.colon, h.lineBreak) &&
    AddressAt(s, h.lineBreak, h.inetAt, h.end) && h.ip == s[h.inetAt + |InetTag|..h.end] &&
    LastAddressOfLine(s, h.inetAt)
  }

  // ---------------------------------------------------------------------------
  // Scanning helpers

  /** First index at or after `p` holding whitespace, or `|s|`. */
  function SpaceFrom(s: string, p: nat): (e: nat)
    requires p <= |s|
    ensures p <= e <= |s|
    decreases |s| - p
  {
    if p == |s| || IsSpace(s[p]) then p else SpaceFrom(s, p + 1)
  }

  lemma {:induction false} SpaceFromSpec(s: string, p: nat)
    requires p <= |s|
    ensures var e := SpaceFrom(s, p); e < |s| ==> IsSpace(s[e])
    ensures forall k :: p <= k < SpaceFrom(s, p) ==> !IsSpace(s[k])
    decreases |s| - p
  {
    if p < |s| && !IsSpace(s[p]) {
      SpaceFromSpec(s, p + 1);
    }
  }

  /** First index at or after `p` holding a newline, or `|s|`. */
  function NewlineFrom(s: string, p: nat): (e: nat)
    requires p <= |s|
    ensures p <= e <= |s|
    decreases |s| - p
  {
    if p == |s| || s[p] == '\n' then p else NewlineFrom(s, p + 1)
  }

  lemma {:induction false} NewlineFromSpec(s: string, p: nat)
    requires p <= |s|
    ensures var e := NewlineFrom(s, p); e < |s| ==> s[e] == '\n'
    ensures forall k :: p <= k < NewlineFrom(s, p) ==> s[k] != '\n'
    decreases |s| - p
  {
    if p < |s| && s[p] != '\n' {
      NewlineFromSpec(s, p + 1);
    }
  }

  /** A stretch free of newlines that stops at one (or at the end) is the
      one NewlineFrom finds. */
  lemma NewlineFromExact(s: string, p: nat, e: nat)
    requires p <= e <= |s| && (forall k :: p <= k < e ==> s[k] != '\n') && (e == |s| || s[e] == '\n')
    ensures NewlineFrom(s, p) == e
  {
    NewlineFromSpec(s, p);
  }

  /** First index at or after `p` holding something other than a digit. */
  function DigitsFrom(s: string, p: nat): (e: nat)
    requires p <= |s|
    ensures p <= e <= |s|
    decreases |s| - p
  {
    if p == |s| || !IsDigit(s[p]) then p else DigitsFrom(s, p + 1)
  }

  lemma {:induction false} DigitsFromSpec(s: string, p: nat)
    requires p <= |s|
    ensures var e := DigitsFrom(s, p); e < |s| ==> !IsDigit(s[e])
    ensures forall k :: p <= k < DigitsFrom(s, p) ==> IsDigit(s[k])
    decreases |s| - p
  {
    if p < |s| && IsDigit(s[p]) {
      DigitsFromSpec(s, p + 1);
    }
  }

  /** Every character of `s[lo..hi]` is a digit. */
  predicate DigitsIn(s: string, lo: nat, hi: nat)
    requires lo <= hi <= |s|
  {
    forall k :: lo <= k < hi ==> IsDigit(s[k])
  }

  lemma DigitsSlice(s: string, lo: nat, hi: nat)
    requires lo <= hi <= |s|
    ensures AllDigits(s[lo..hi]) <==> DigitsIn(s, lo, hi)
  {
    if DigitsIn(s, lo, hi) {
      forall k | 0 <= k < hi - lo ensures IsDigit(s[lo..hi][k]) {
        assert s[lo..hi][k] == s[lo + k];
      }
    }
    if AllDigits(s[lo..hi]) {
      forall k | lo <= k < hi ensures IsDigit(s[k]) {
        assert s[k] == s[lo..hi][k - lo];
      }
    }
  }

  /** A run of digits from `p` that stops at a non-digit (or the end) is the
      one DigitsFrom finds. */
  lemma DigitsFromExact(s: string, p: nat, e: nat)
    requires p <= e <= |s| && DigitsIn(s, p, e) && (e == |s| || !IsDigit(s[e]))
    ensures DigitsFrom(s, p) == e
  {
    DigitsFromSpec(s, p);
  }

  /** The dots at `d1 < d2 < d3` with digit runs between them: `s[t..e]`
      read as a dotted quad, by positions in `s`. */
  predicate QuadRuns(s: string, t: nat, d1: nat, d2: nat, d3: nat, e: nat) {
    t < d1 && d1 + 1 < d2 && d2 + 1 < d3 && d3 + 1 < e <= |s| &&
    s[d1] == '.' && s[d2] == '.' && s[d3] == '.' &&
    DigitsIn(s, t, d1) && DigitsIn(s, d1 + 1, d2) && DigitsIn(s, d2 + 1, d3) && DigitsIn(s, d3 + 1, e)
  }

  /** A digit run read inside the slice `s[t..e]` is the same run read in
      `s`. */
  lemma DigitsInSlice(s: string, t: nat, e: nat, lo: nat, hi: nat)
    requires t <= lo <= hi <= e <= |s|
    ensures AllDigits(s[t..e][lo - t..hi - t]) <==> DigitsIn(s, lo, hi)
  {
    SliceOfSlice(s, t, e, lo - t, hi - t);
    DigitsSlice(s, lo, hi);
  }

  /** The positional reading and the reading of the slice agree. */
  lemma QuadRunsIffShape(s: string, t: nat, d1: nat, d2: nat, d3: nat, e: nat)
    requires t < d1 < d2 < d3 < e <= |s|
    ensures QuadRuns(s, t, d1, d2, d3, e) <==> QuadShape(s[t..e], d1 - t, d2 - t, d3 - t)
  {
    var q := s[t..e];
    assert q[d1 - t] == s[d1] && q[d2 - t] == s[d2] && q[d3 - t] == s[d3];
    DigitsInSlice(s, t, e, t, d1);
    DigitsInSlice(s, t, e, d1 + 1, d2);
    DigitsInSlice(s, t, e, d2 + 1, d3);
    DigitsInSlice(s, t, e, d3 + 1, e);
    assert |q| == e - t;
  }

  /** `\d+\.\d+\.\d+\.\d+` tried at `t`: where the match ends, the last
      number taking every digit it can. */
  function QuadEnd(s: string, t: nat): (e: Option<nat>)
    requires t <= |s|
    ensures e.Some? ==> t < e.value <= |s|
  {
    var e1 := DigitsFrom(s, t);
    if e1 == t || e1 == |s| || s[e1] != '.' then None
    else
      var e2 := DigitsFrom(s, e1 + 1);
      if e2 == e1 + 1 || e2 == |s| || s[e2] != '.' then None
      else
        var e3 := DigitsFrom(s, e2 + 1);
        if e3 == e2 + 1 || e3 == |s| || s[e3] != '.' then None
        else
          var e4 := DigitsFrom(s, e3 + 1);
          if e4 == e3 + 1 then None else Some(e4)
  }

  /** What QuadEnd accepts is a dotted quad whose last number cannot grow. */
  lemma QuadEndSound(s: string, t: nat)
    requires t <= |s| && QuadEnd(s, t).Some?
    ensures QuadSpan(s, t, QuadEnd(s, t).value)
    ensures QuadEnd(s, t).value == |s| || !IsDigit(s[QuadEnd(s, t).value])
  {
    var e1 := DigitsFrom(s, t);
    var e2 := DigitsFrom(s, e1 + 1);
    var e3 := DigitsFrom(s, e2 + 1);
    var e4 := DigitsFrom(s, e3 + 1);
    DigitsFromSpec(s, t);
    DigitsFromSpec(s, e1 + 1);
    DigitsFromSpec(s, e2 + 1);
    DigitsFromSpec(s, e3 + 1);
    assert QuadRuns(s, t, e1, e2, e3, e4);
    QuadRunsIffShape(s, t, e1, e2, e3, e4);
  }

  /** Any dotted quad at `t` makes QuadEnd succeed, and a quad whose last
      number cannot grow is exactly the one QuadEnd returns. */
  lemma QuadEndComplete(s: string, t: nat, e: nat)
    requires QuadSpan(s, t, e)
    ensures QuadEnd(s, t).Some?
    ensures e == |s| || !IsDigit(s[e]) ==> QuadEnd(s, t) == Some(e)
  {
    var i: nat, j: nat, k: nat :| QuadShape(s[t..e], i, j, k);
    QuadRunsIffShape(s, t, t + i, t + j, t + k, e);
    QuadEndOfRuns(s, t, t + i, t + j, t + k, e);
  }

  lemma QuadEndOfRuns(s: string, t: nat, d1: nat, d2: nat, d3: nat, e: nat)
    requires QuadRuns(s, t, d1, d2, d3, e)
    ensures QuadEnd(s, t).Some?
    ensures e == |s| || !IsDigit(s[e]) ==> QuadEnd(s, t) == Some(e)
  {
    DigitsFromExact(s, t, d1);
    DigitsFromExact(s, d1 + 1, d2);
    DigitsFromExact(s, d2 + 1, d3);
    DigitsFromSpec(s, d3 + 1);
    if e == |s| || !IsDigit(s[e]) {
      DigitsFromExact(s, d3 + 1, e);
    }
  }

  /** `inet ` followed by a dotted quad starts at `x`, as QuadEnd decides it. */
  predicate InetAddressAt(s: string, x: nat) {
    OccursAt(s, InetTag, x) && QuadEnd(s, x + |InetTag|).Some?
  }

  /** The last `inet` address starting in `s[lo..hi]`: its position and
      where the address ends. */
  function LastInet(s: string, lo: nat, hi: nat): (r: Option<(nat, nat)>)
    requires lo <= hi <= |s|
    ensures r.Some? ==> lo <= r.value.0 < hi && r.value.0 + |InetTag| < r.value.1 <= |s|
    decreases hi - lo
  {
    if hi == lo then None
    else if InetAddressAt(s, hi - 1) then Some((hi - 1, QuadEnd(s, hi - 1 + |InetTag|).value))
    else LastInet(s, lo, hi - 1)
  }

  /** LastInet returns an address that no later position in the range
      starts, and nothing only when the range holds no address. */
  lemma LastInetSpec(s: string, lo: nat, hi: nat)
    requires lo <= hi <= |s|
    ensures var r := LastInet(s, lo, hi);
      r.Some? ==> InetAddressAt(s, r.value.0) && QuadEnd(s, r.value.0 + |InetTag|) == Some(r.value.1)
    ensures var r := LastInet(s, lo, hi);
      r.Some? ==> forall x: nat :: r.value.0 < x < hi ==> !InetAddressAt(s, x)
    ensures LastInet(s, lo, hi).None? ==> forall x: nat :: lo <= x < hi ==> !InetAddressAt(s, x)
  {
    LastInetFound(s, lo, hi);
    LastInetLatest(s, lo, hi);
  }

  lemma {:induction false} LastInetFound(s: string, lo: nat, hi: nat)
    requires lo <= hi <= |s|
    ensures var r := LastInet(s, lo, hi);
      r.Some? ==> InetAddressAt(s, r.value.0) && QuadEnd(s, r.value.0 + |InetTag|) == Some(r.value.1)
    decreases hi - lo
  {
    if hi > lo && !InetAddressAt(s, hi - 1) {
      LastInetFound(s, lo, hi - 1);
    }
  }

  /** Nothing in the range after LastInet's answer (the whole range when
      it answers None) starts an address. */
  lemma {:induction false} LastInetLatest(s: string, lo: nat, hi: nat)
    requires lo <= hi <= |s|
    ensures forall x: nat :: LastInetFrom(s, lo, hi) <= x < hi ==> !InetAddressAt(s, x)
    decreases hi - lo
  {
    if hi > lo && !InetAddressAt(s, hi - 1) {
      LastInetLatest(s, lo, hi - 1);
    }
  }

  /** The first position after LastInet's answer, or `lo` when it has none. */
  function LastInetFrom(s: string, lo: nat, hi: nat): nat
    requires lo <= hi <= |s|
  {
    match LastInet(s, lo, hi)
    case Some((r, _)) => r + 1
    case None => lo
  }

  /** Greedy `.*` picks the last `inet` address on the line. */
  lemma LastOnLine(s: string, lo: nat, eol: nat, r: nat)
    requires lo <= r < eol <= |s| && eol == NewlineFrom(s, lo)
    requires forall x: nat :: r < x < eol ==> !InetAddressAt(s, x)
    ensures LastAddressOfLine(s, r)
  {
    NewlineFromSpec(s, lo);
    forall x: nat | r < x <= |s| && NoNewline(s[r..x]) ensures !InetQuadAt(s, x) {
      InetQuadIsAddress(s, x);
    }
  }

  /** A position where `inet ` and a dotted quad start is one InetAddressAt
      accepts. */
  lemma InetQuadIsAddress(s: string, x: nat)
    ensures InetQuadAt(s, x) ==> InetAddressAt(s, x)
  {
    if InetQuadAt(s, x) {
      var e: nat :| QuadSpan(s, x + |InetTag|, e);
      QuadEndComplete(s, x + |InetTag|, e);
    }
  }

  // ---------------------------------------------------------------------------
  // One attempt of the pattern, and findall

  /** `(\S+): flags` tried at `p`: the position of the colon. */
  function HeaderColon(s: string, p: nat): (c: Option<nat>)
    requires p <= |s|
    ensures c.Some? ==> p < c.value && c.value + |FlagsTag| <= |s|
  {
    if p == |s| || IsSpace(s[p]) then None
    else
      var e := SpaceFrom(s, p);
      if e < p + 2 || s[e - 1] != ':' || !OccursAt(s, FlagsTag, e - 1) then None
      else Some(e - 1)
  }

  /** HeaderColon finds exactly the header that starts at `p`. */
  lemma HeaderColonExact(s: string, p: nat, c: nat)
    requires p <= |s|
    ensures HeaderColon(s, p) == Some(c) <==> HeaderAt(s, p, c)
  {
    SpaceFromSpec(s, p);
    if HeaderAt(s, p, c) {
      // the name runs up to the colon, which a space follows
      assert s[c] == FlagsTag[0] && s[c + 1] == FlagsTag[1];
      assert SpaceFrom(s, p) == c + 1;
    }
  }

  /** `.*\n.*inet (\d+\.\d+\.\d+\.\d+)` after the header that ends at
      `colon`: the header's newline, the `inet` and the end of the address. */
  function AddressAfter(s: string, colon: nat): (a: Option<(nat, nat, nat)>)
    requires colon + |FlagsTag| <= |s|
    ensures a.Some? ==> a.value.0 < a.value.1 && a.value.1 + |InetTag| < a.value.2 <= |s|
  {
    var lb := NewlineFrom(s, colon + |FlagsTag|);
    if lb == |s| then None
    else
      match LastInet(s, lb + 1, NewlineFrom(s, lb + 1))
      case None => None
      case Some((r, q)) => Some((lb, r, q))
  }

  /** What AddressAfter finds is the rest of a match. */
  lemma AddressAfterSound(s: string, colon: nat)
    requires colon + |FlagsTag| <= |s| && AddressAfter(s, colon).Some?
    ensures var (lb, r, q) := AddressAfter(s, colon).value;
      HeaderLineEndsAt(s, colon, lb) && AddressAt(s, lb, r, q) && LastAddressOfLine(s, r)
  {
    var lb := NewlineFrom(s, colon + |FlagsTag|);
    NewlineFromSpec(s, colon + |FlagsTag|);
    assert HeaderLineEndsAt(s, colon, lb);
    var (r, q) := LastInet(s, lb + 1, NewlineFrom(s, lb + 1)).value;
    LastInetOnLine(s, lb, r, q);
  }

  /** The last `inet` address of the line after `lb` is a greedy match of
      the pattern's second line. */
  lemma LastInetOnLine(s: string, lb: nat, r: nat, q: nat)
    requires lb < |s| && LastInet(s, lb + 1, NewlineFrom(s, lb + 1)) == Some((r, q))
    ensures AddressAt(s, lb, r, q) && LastAddressOfLine(s, r)
  {
    LastInetAddress(s, lb, r, q);
    LastInetGreedy(s, lb, r, q);
  }

  lemma LastInetAddress(s: string, lb: nat, r: nat, q: nat)
    requires lb < |s| && LastInet(s, lb + 1, NewlineFrom(s, lb + 1)) == Some((r, q))
    ensures AddressAt(s, lb, r, q)
  {
    var eol := NewlineFrom(s, lb + 1);
    LastInetFound(s, lb + 1, eol);
    assert OccursAt(s, InetTag, r) && QuadEnd(s, r + |InetTag|) == Some(q);
    QuadEndSound(s, r + |InetTag|);
    assert IsDottedQuad(s[r + |InetTag|..q]) && (q == |s| || !IsDigit(s[q]));
    NewlineFromSpec(s, lb + 1);
  }

  lemma LastInetGreedy(s: string, lb: nat, r: nat, q: nat)
    requires lb < |s| && LastInet(s, lb + 1, NewlineFrom(s, lb + 1)) == Some((r, q))
    ensures LastAddressOfLine(s, r)
  {
    var eol := NewlineFrom(s, lb + 1);
    LastInetLatest(s, lb + 1, eol);
    assert LastInetFrom(s, lb + 1, eol) == r + 1;
    LastOnLine(s, lb + 1, eol, r);
  }

  /** The newline ending the header line is the first one after ": flags". */
  lemma HeaderLineFound(s: string, colon: nat, lb: nat)
    requires HeaderLineEndsAt(s, colon, lb)
    ensures NewlineFrom(s, colon + |FlagsTag|) == lb
  {
    NewlineFromSpec(s, colon + |FlagsTag|);
  }

  /** The `inet` of a match lies on the line after the header. */
  lemma AddressOnLine(s: string, lb: nat, r: nat, q: nat)
    requires lb < |s| && AddressAt(s, lb, r, q)
    ensures r < NewlineFrom(s, lb + 1)
    ensures InetAddressAt(s, r) && QuadEnd(s, r + |InetTag|) == Some(q)
  {
    NewlineFromSpec(s, lb + 1);
    assert s[r] == InetTag[0];
    QuadEndComplete(s, r + |InetTag|, q);
  }

  /** The address a match takes is the one LastInet finds on its line. */
  lemma AddressFound(s: string, lb: nat, r: nat, q: nat)
    requires lb < |s| && AddressAt(s, lb, r, q) && LastAddressOfLine(s, r)
    ensures LastInet(s, lb + 1, NewlineFrom(s, lb + 1)) == Some((r, q))
  {
    var eol := NewlineFrom(s, lb + 1);
    AddressOnLine(s, lb, r, q);
    NoLaterOnLine(s, lb + 1, eol, r);
    LastInetIs(s, lb + 1, eol, r);
  }

  /** The greedy choice of `r` leaves no `inet` address later on its line. */
  lemma NoLaterOnLine(s: string, lo: nat, eol: nat, r: nat)
    requires lo <= r < eol <= |s| && eol == NewlineFrom(s, lo)
    requires LastAddressOfLine(s, r)
    ensures forall x: nat :: r < x < eol ==> !InetAddressAt(s, x)
  {
    NewlineFromSpec(s, lo);
    forall x: nat | r < x < eol && InetAddressAt(s, x) ensures false {
      var between := s[r..x];
      forall k | 0 <= k < |between| ensures between[k] != '\n' {
        assert between[k] == s[r + k];
      }
      QuadEndSound(s, x + |InetTag|);
      assert InetQuadAt(s, x);
    }
  }

  /** LastInet finds an address that no later position in the range starts. */
  lemma {:induction false} LastInetIs(s: string, lo: nat, hi: nat, x: nat)
    requires lo <= x < hi <= |s| && InetAddressAt(s, x)
    requires forall y: nat :: x < y < hi ==> !InetAddressAt(s, y)
    ensures LastInet(s, lo, hi) == Some((x, QuadEnd(s, x + |InetTag|).value))
    decreases hi
  {
    if x < hi - 1 {
      LastInetIs(s, lo, hi - 1, x);
    }
  }

  /** AddressAfter finds the rest of every match. */
  lemma AddressAfterComplete(s: string, colon: nat, lb: nat, r: nat, q: nat)
    requires colon + |FlagsTag| <= |s|
    requires HeaderLineEndsAt(s, colon, lb) && AddressAt(s, lb, r, q) && LastAddressOfLine(s, r)
    ensures AddressAfter(s, colon) == Some((lb, r, q))
  {
    HeaderLineFound(s, colon, lb);
    AddressFound(s, lb, r, q);
  }

  /** The pattern tried at position `p`. */
  function HitAt(s: string, p: nat): (h: Option<Hit>)
    requires p <= |s|
    ensures h.Some? ==> h.value.start == p < h.value.end <= |s|
  {
    match HeaderColon(s, p)
    case None => None
    case Some(c) =>
      match AddressAfter(s, c)
      case None => None
      case Some((lb, r, q)) => Some(Hit(s[p..c], s[r + |InetTag|..q], p, c, lb, r, q))
  }

  /** What HitAt finds is a match of the pattern. */
  lemma HitAtSound(s: string, p: nat)
    requires p <= |s| && HitAt(s, p).Some?
    ensures IsHit(s, HitAt(s, p).value)
  {
    var c := HeaderColon(s, p).value;
    HeaderColonExact(s, p, c);
    AddressAfterSound(s, c);
  }

  /** HitAt finds every match that starts at `p`, so a match starting at a
      given position is unique and is the one HitAt returns. */
  lemma HitAtComplete(s: string, h: Hit)
    requires IsHit(s, h)
    ensures HitAt(s, h.start) == Some(h)
  {
    HeaderColonExact(s, h.start, h.colon);
    AddressAfterComplete(s, h.colon, h.lineBreak, h.inetAt, h.end);
    HitOfParts(s, h);
  }

  /** HitAt assembles the hit from what its two stages find. */
  lemma HitOfParts(s: string, h: Hit)
    requires h.start <= |s| && h.colon + |FlagsTag| <= |s|
    requires HeaderColon(s, h.start) == Some(h.colon)
    requires AddressAfter(s, h.colon) == Some((h.lineBreak, h.inetAt, h.end))
    requires h.name == s[h.start..h.colon] && h.ip == s[h.inetAt + |InetTag|..h.end]
    ensures HitAt(s, h.start) == Some(h)
  {
  }

  // ---------------------------------------------------------------------------
  // findall, for any matcher

  /** A matcher tried at position `x` of a text of length `n` reports a
      non-empty match that starts at `x`, if any. */
  ghost predicate Advances(m: nat -> Option<Hit>, n: nat) {
    forall x: nat :: x <= n && m(x).Some? ==> m(x).value.start == x < m(x).value.end <= n
  }

  /** `findall`'s scan from position `p`: try the matcher at `p`; after a
      match go on from where it ended, otherwise from the next position. */
  function Scan(m: nat -> Option<Hit>, n: nat, p: nat): seq<Hit>
    requires p <= n && Advances(m, n)
    decreases n - p
  {
    match m(p)
    case Some(h) => [h] + Scan(m, n, h.end)
    case None => if p == n then [] else Scan(m, n, p + 1)
  }

  /** Every hit lies in `[lo, hi)` and is non-empty. */
  predicate Within(hits: seq<Hit>, lo: nat, hi: nat) {
    forall i :: 0 <= i < |hits| ==> lo <= hits[i].start < hits[i].end <= hi
  }

  /** Each hit ends no later than the next one starts. */
  predicate InTextOrder(hits: seq<Hit>) {
    forall i :: 0 <= i < |hits| - 1 ==> hits[i].end <= hits[i + 1].start
  }

  /** No hit has position `x` strictly inside it. */
  predicate Uncovered(hits: seq<Hit>, x: nat) {
    forall g :: g in hits ==> !(g.start < x < g.end)
  }

  /** The scan reports hits in text order, none overlapping the next. */
  lemma {:induction false} ScanOrdered(m: nat -> Option<Hit>, n: nat, p: nat)
    requires p <= n && Advances(m, n)
    ensures Within(Scan(m, n, p), p, n) && InTextOrder(Scan(m, n, p))
    decreases n - p
  {
    match m(p)
    case Some(h) =>
      ScanOrdered(m, n, h.end);
      OrderedCons(h, Scan(m, n, h.end), p, n);
    case None =>
      if p < n {
        ScanOrdered(m, n, p + 1);
      }
  }

  /** A hit followed by ordered hits that start after it is ordered. */
  lemma OrderedCons(h: Hit, rest: seq<Hit>, lo: nat, hi: nat)
    requires lo <= h.start < h.end <= hi
    requires Within(rest, h.end, hi) && InTextOrder(rest)
    ensures Within([h] + rest, lo, hi) && InTextOrder([h] + rest)
  {
    var hits := [h] + rest;
    forall i | 1 <= i < |hits| ensures hits[i] == rest[i - 1] {
    }
  }

  /** Every hit the scan reports is what the matcher reports at its start. */
  lemma {:induction false} ScanSound(m: nat -> Option<Hit>, n: nat, p: nat)
    requires p <= n && Advances(m, n)
    ensures forall h :: h in Scan(m, n, p) ==> m(h.start) == Some(h)
    decreases n - p
  {
    match m(p)
    case Some(h) => ScanSound(m, n, h.end);
    case None => if p < n { ScanSound(m, n, p + 1); }
  }

  /** The scan reaches every hit of the matcher that no reported hit
      covers. */
  lemma {:induction false} ScanReaches(m: nat -> Option<Hit>, n: nat, p: nat, h: Hit)
    requires p <= h.start <= n && Advances(m, n) && m(h.start) == Some(h)
    requires Uncovered(Scan(m, n, p), h.start)
    ensures h in Scan(m, n, p)
    decreases n - p
  {
    if h.start != p {
      match m(p)
      case Some(g) =>
        UncoveredCons(g, Scan(m, n, g.end), h.start);
        ScanReaches(m, n, g.end, h);
      case None =>
        ScanReaches(m, n, p + 1, h);
    }
  }

  /** Dropping the first hit keeps `x` uncovered, and the first hit itself
      does not cover it. */
  lemma UncoveredCons(g: Hit, rest: seq<Hit>, x: nat)
    requires Uncovered([g] + rest, x)
    ensures !(g.start < x < g.end) && Uncovered(rest, x)
  {
    assert g in [g] + rest;
    forall f | f in rest ensures !(f.start < x < f.end) {
      assert f in [g] + rest;
    }
  }

  // ---------------------------------------------------------------------------
  // findall with the ifconfig pattern

  /** The pattern tried at each position of `s`. */
  function Matcher(s: string): nat -> Option<Hit>
  {
    (x: nat) => if x <= |s| then HitAt(s, x) else None
  }

  lemma MatcherAdvances(s: string)
    ensures Advances(Matcher(s), |s|)
  {
  }

  /** `re.findall` of the pattern on `s`, from position `p`. */
  function FindAll(s: string, p: nat): seq<Hit>
    requires p <= |s|
  {
    MatcherAdvances(s);
    Scan(Matcher(s), |s|, p)
  }

  /** `findall` reports matches in text order, none overlapping the next. */
  lemma FindAllOrdered(s: string, p: nat)
    requires p <= |s|
    ensures Within(FindAll(s, p), p, |s|) && InTextOrder(FindAll(s, p))
  {
    MatcherAdvances(s);
    ScanOrdered(Matcher(s), |s|, p);
  }

  /** Everything `findall` reports is a match. */
  lemma FindAllSound(s: string, p: nat)
    requires p <= |s|
    ensures forall h :: h in FindAll(s, p) ==> IsHit(s, h)
  {
    MatcherAdvances(s);
    ScanSound(Matcher(s), |s|, p);
    forall h | h in FindAll(s, p) ensures IsHit(s, h) {
      HitAtSound(s, h.start);
    }
  }

  /** `findall` misses nothing: a match that does not start inside an
      earlier reported match is reported. */
  lemma FindAllComplete(s: string, p: nat, h: Hit)
    requires p <= h.start && IsHit(s, h)
    requires Uncovered(FindAll(s, p), h.start)
    ensures h in FindAll(s, p)
  {
    HitAtComplete(s, h);
    MatcherAdvances(s);
    ScanReaches(Matcher(s), |s|, p, h);
  }

  /** A device whose header line is not followed by a line carrying an
      `inet` address yields no record. */
  lemma NoAddressNoRecord(s: string, colon: nat, lb: nat)
    requires HeaderLineEndsAt(s, colon, lb)
    requires forall r: nat :: lb < r <= |s| && NoNewline(s[lb + 1..r]) ==> !InetQuadAt(s, r)
    ensures forall h :: h in FindAll(s, 0) ==> h.colon != colon
  {
    FindAllSound(s, 0);
    HeaderLineFound(s, colon, lb);
    forall h | h in FindAll(s, 0) ensures h.colon != colon {
      HeaderLineFound(s, h.colon, h.lineBreak);
      HitAddress(s, h);
      assert h.lineBreak == lb ==> !InetQuadAt(s, h.inetAt);
    }
  }

  /** The address of a match sits on the line after its header line. */
  lemma HitAddress(s: string, h: Hit)
    requires IsHit(s, h)
    ensures InetQuadAt(s, h.inetAt) && NoNewline(s[h.lineBreak + 1..h.inetAt])
  {
    assert QuadSpan(s, h.inetAt + |InetTag|, h.end);
    var line := s[h.lineBreak + 1..h.inetAt];
    forall k | 0 <= k < |line| ensures line[k] != '\n' {
      assert line[k] == s[h.lineBreak + 1 + k];
    }
  }

  // ---------------------------------------------------------------------------
  // The records

  /** The record the script writes for one device. */
  function DeviceRecord(h: Hit): (r: string)
  {
    "Device: " + h.name + ", IP: " + h.ip
  }

  /** `parse_ifconfig`: one record per match, in the order `findall`
      reports them. */
  method ParseIfconfig(output: string) returns (interfaces: seq<string>)
    ensures |interfaces| == |FindAll(output, 0)|
    ensures forall i :: 0 <= i < |interfaces| ==>
      interfaces[i] == DeviceRecord(FindAll(output, 0)[i])
  {
    var matches := FindAll(output, 0);
    interfaces := [];
    for i := 0 to |matches|
      invariant |interfaces| == i
      invariant forall k :: 0 <= k < i ==> interfaces[k] == DeviceRecord(matches[k])
    {
      interfaces := interfaces + [DeviceRecord(matches[i])];
    }
  }

  /** The loopback block of a listing. */
  const Loopback: string := "lo: flags=73\n inet 127.0.0.1\n"

  lemma LoopbackHeader()
    ensures HeaderColon(Loopback, 0) == Some(2)
  {
    OccursAtByChars(Loopback, FlagsTag, 2);
    assert SpaceFrom(Loopback, 0) == 3;
  }

  lemma LoopbackLines()
    ensures NewlineFrom(Loopback, 9) == 12 && NewlineFrom(Loopback, 13) == 28
  {
    NewlineFromExact(Loopback, 9, 12);
    NewlineFromExact(Loopback, 13, 28);
  }

  lemma LoopbackQuad()
    ensures QuadEnd(Loopback, 19) == Some(28)
  {
    assert QuadRuns(Loopback, 19, 22, 24, 26, 28);
    QuadEndOfRuns(Loopback, 19, 22, 24, 26, 28);
  }

  lemma LoopbackInet(s: string)
    requires s == Loopback
    ensures LastInet(s, 13, 28) == Some((14, 28))
  {
    LoopbackQuad();
    LoopbackInetTag(s);
    LoopbackNoLaterI(s);
    LastInetAt(s, 13, 28, 14);
  }

  lemma LoopbackInetTag(s: string)
    requires s == Loopback
    ensures OccursAt(s, InetTag, 14)
  {
    OccursAtByChars(s, InetTag, 14);
  }

  lemma LoopbackNoLaterI(s: string)
    requires s == Loopback
    ensures forall y :: 14 < y < 28 ==> s[y] != 'i'
  {
  }

  /** LastInet finds an address followed in the range by no `i`. */
  lemma LastInetAt(s: string, lo: nat, hi: nat, x: nat)
    requires lo <= x < hi <= |s| && InetAddressAt(s, x)
    requires forall y :: x < y < hi ==> s[y] != 'i'
    ensures LastInet(s, lo, hi) == Some((x, QuadEnd(s, x + |InetTag|).value))
  {
    forall y: nat | x < y < hi ensures !InetAddressAt(s, y) {
      assert s[y] != InetTag[0];
    }
    LastInetIs(s, lo, hi, x);
  }

  lemma LoopbackAddress()
    ensures AddressAfter(Loopback, 2) == Some((12, 14, 28))
  {
    LoopbackLines();
    LoopbackInet(Loopback);
  }

  lemma LoopbackFirstHit(s: string)
    requires s == Loopback
    ensures HitAt(s, 0) == Some(Hit("lo", "127.0.0.1", 0, 2, 12, 14, 28))
  {
    LoopbackHeader();
    LoopbackAddress();
    assert s[0..2] == "lo" && s[19..28] == "127.0.0.1";
  }

  lemma LoopbackTail(s: string)
    requires s == Loopback
    ensures FindAll(s, 28) == []
  {
    assert IsSpace(s[28]);
    assert HitAt(s, 28) == None;
    assert FindAll(s, 29) == [];
  }

  /** The loopback block yields its one record. */
  lemma LoopbackExample(s: string)
    requires s == Loopback
    ensures FindAll(s, 0) == [Hit("lo", "127.0.0.1", 0, 2, 12, 14, 28)]
  {
    LoopbackFirstHit(s);
    LoopbackTail(s);
  }
}
