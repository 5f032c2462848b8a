/**
 * The composite event identifier: a calendar uid (possibly absent) and an
 * event uid packed into the one native uid a calendar server stores.
 */
module Identifiers {
  import opened Wrappers
  import opened Strings

  /** The separator between calendar uid and event uid. */
  const Sep: string := "-|-"

  /**
   * What decoding a native uid yields: the tuple the split produces, with
   * an absent calendar uid put in front of a single part. A tuple of three or
   * more parts is not a (calendar uid, event uid) pair.
   */
  datatype Decoded =
    | Pair(cal: Option<string>, ev: string)
    | Wide(parts: seq<string>)

  /**
   * The native uid under which an event is looked up: the bare event uid
   * when the calendar uid is absent, otherwise both joined by `sep`.
   */
  function EncodeWith(sep: string, cal: Option<string>, ev: string): (native: string)
    ensures EndsWith(native, ev)
    ensures cal.Some? ==> Contains(native, sep)
    ensures cal.Some? ==> |cal.value| <= |native| && native[..|cal.value|] == cal.value
  {
    match cal
    case None => ev
    case Some(c) =>
      assert (c + sep + ev)[|c|..|c| + |sep|] == sep;
      assert OccursAt(c + sep + ev, sep, |c|);
      c + sep + ev
  }

  /** Splits a native uid on `sep` into a pair, or a wider tuple. */
  function DecodeWith(sep: string, native: string): (d: Decoded)
    requires |sep| > 0
    ensures d.Pair? <==> |Split(native, sep)| <= 2
    ensures !Contains(native, sep) ==> d == Pair(None, native)
    ensures d.Pair? ==> (d.cal.None? <==> !Contains(native, sep))
    ensures d.Pair? ==> !Contains(d.ev, sep)
    ensures d.Pair? && d.cal.Some? ==> !Contains(d.cal.value, sep)
    ensures d.Wide? ==> |d.parts| >= 3
  {
    var parts := Split(native, sep);
    SplitPartsSeparatorFree(native, sep);
    if |parts| == 1 then Pair(None, parts[0])
    else if |parts| == 2 then Pair(Some(parts[0]), parts[1])
    else Wide(parts)
  }

  /** The encoding the adapters use, with the separator `-|-`. */
  function Encode(cal: Option<string>, ev: string): string
  {
    EncodeWith(Sep, cal, ev)
  }

  /** The decoding the adapters use, with the separator `-|-`. */
  function Decode(native: string): Decoded
  {
    DecodeWith(Sep, native)
  }

  /**
   * A calendar uid that can be decoded back: neither it nor it followed by
   * a proper prefix of the separator contains the separator. Being
   * separator-free is not enough, since the separator overlaps itself.
   */
  ghost predicate UnambiguousCalUid(cal: string)
  {
    !Contains(cal + Sep[..|Sep| - 1], Sep)
  }

  /** A separator-free calendar uid is unambiguous unless it ends in "-|". */
  lemma UnambiguousUnlessOverlap(cal: string)
    requires !Contains(cal, Sep)
    ensures UnambiguousCalUid(cal) <==> !EndsWith(cal, Sep[..|Sep| - 1])
  {
    var t := cal + Sep[..|Sep| - 1];
    if EndsWith(cal, Sep[..|Sep| - 1]) {
      var k := |cal| - 2;
      assert t[k..k + |Sep|] == Sep;
      assert OccursAt(t, Sep, k);
    } else {
      forall j ensures !OccursAt(t, Sep, j) {
        if 0 <= j && j + |Sep| <= |t| {
          if j + |Sep| <= |cal| {
            assert t[j..j + |Sep|] == cal[j..j + |Sep|];
            assert !OccursAt(cal, Sep, j);
          } else if j == |cal| - 2 {
            assert t[j..j + |Sep|][..2] == cal[|cal| - 2..];
            assert cal[|cal| - 2..] != Sep[..2];
          } else {
            assert j == |cal| - 1;
            assert t[j..j + |Sep|][1] == t[|cal|] == '-';
            assert Sep[1] == '|';
          }
        }
      }
    }
  }

  /** A uid without a dash holds no separator. */
  lemma NoDashNoSeparator(s: string)
    requires forall k :: 0 <= k < |s| ==> s[k] != '-'
    ensures !Contains(s, Sep)
  {
    forall j ensures !OccursAt(s, Sep, j) {
      if 0 <= j && j + |Sep| <= |s| {
        assert s[j..j + |Sep|][0] == s[j];
      }
    }
  }

  /** Round trip: an unambiguous pair is read back exactly as it was written. */
  lemma DecodeEncode(cal: string, ev: string)
    requires UnambiguousCalUid(cal)
    requires !Contains(ev, Sep)
    ensures Decode(Encode(Some(cal), ev)) == Pair(Some(cal), ev)
  {
    FirstAtJoint(cal, ev, Sep);
    SplitAtFirst(cal, ev, Sep);
  }

  /** Round trip for an absent calendar uid. */
  lemma DecodeEncodeBare(ev: string)
    requires !Contains(ev, Sep)
    ensures Decode(Encode(None, ev)) == Pair(None, ev)
  {
  }

  /**
   * For separator-free parts, the pair survives encoding and decoding
   * exactly when the calendar uid does not end in "-|".
   */
  lemma RoundTripIff(cal: string, ev: string)
    requires !Contains(cal, Sep) && !Contains(ev, Sep)
    ensures Decode(Encode(Some(cal), ev)) == Pair(Some(cal), ev) <==> !EndsWith(cal, "-|")
  {
    assert Sep[..|Sep| - 1] == "-|";
    UnambiguousUnlessOverlap(cal);
    if EndsWith(cal, "-|") {
      var s := Encode(Some(cal), ev);
      var k := |cal| - 2;
      assert s[k..k + |Sep|] == Sep;
      assert OccursAt(s, Sep, k);
      var f := Find(s, Sep).value;
      assert f <= k;
      assert Split(s, Sep)[0] == s[..f];
    } else {
      DecodeEncode(cal, ev);
    }
  }

  /**
   * The overlap in action: two different pairs of separator-free uids are
   * written under the same native uid, and it decodes to only one of them.
   */
  lemma SeparatorFreeRoundTripFails()
    ensures !Contains("-|", Sep) && !Contains("x", Sep)
    ensures Encode(Some("-|"), "x") == Encode(Some(""), "|-x")
    ensures Decode(Encode(Some("-|"), "x")) == Pair(Some(""), "|-x")
  {
    assert "|-x"[0..3][0] != Sep[0];
    assert forall j :: !OccursAt("|-x", Sep, j);
    assert "-|" + Sep + "x" == "" + Sep + "|-x";
    DecodeEncode("", "|-x");
  }

  /**
   * Reverse round trip: any native uid that decodes to a pair is rebuilt
   * exactly by encoding that pair.
   */
  lemma EncodeDecode(native: string)
    requires |Split(native, Sep)| <= 2
    ensures Decode(native).Pair?
    ensures Encode(Decode(native).cal, Decode(native).ev) == native
  {
    JoinSplit(native, Sep);
  }

  /** Two native uids that decode to the same pair are the same uid. */
  lemma DecodeInjective(u: string, v: string)
    requires Decode(u).Pair? && Decode(u) == Decode(v)
    ensures u == v
  {
    EncodeDecode(u);
    EncodeDecode(v);
  }

  /**
   * A native uid holding two non-overlapping separators decodes to a tuple
   * of three or more parts, not to a pair.
   */
  lemma TwoSeparatorsDecodeWide(native: string, i: nat, j: nat)
    requires OccursAt(native, Sep, i) && OccursAt(native, Sep, j) && i + |Sep| <= j
    ensures Decode(native).Wide?
  {
    OccurrenceAfterFirst(native, Sep, i, j);
  }

  /** Worked cases: a composite and a bare native uid decode as expected. */
  lemma ExampleDecodes()
    ensures Encode(Some("cal1"), "ev1") == "cal1-|-ev1"
    ensures Decode("cal1-|-ev1") == Pair(Some("cal1"), "ev1")
    ensures Decode("ev2") == Pair(None, "ev2")
  {
    assert "ev1"[0] == 'e' && "ev1"[1] == 'v' && "ev1"[2] == '1';
    assert "ev2"[0] == 'e' && "ev2"[1] == 'v' && "ev2"[2] == '2';
    assert "cal1"[0] == 'c' && "cal1"[1] == 'a' && "cal1"[2] == 'l' && "cal1"[3] == '1';
    NoDashNoSeparator("ev1");
    NoDashNoSeparator("ev2");
    NoDashNoSeparator("cal1");
    UnambiguousUnlessOverlap("cal1");
    assert "cal1"[2..] != "-|";
    DecodeEncode("cal1", "ev1");
  }

  /**
   * A separator that cannot overlap itself: `-|-` without its trailing dash.
   * With it, every pair of separator-free uids survives the round trip.
   */
  const BorderFreeSep: string := "-|"

  /** `-|-` overlaps itself at its dash; `-|` does not overlap itself. */
  lemma SeparatorBorders()
    ensures !BorderFree(Sep)
    ensures BorderFree(BorderFreeSep)
  {
    assert Sep[..1] == Sep[|Sep| - 1..];
    forall m | 0 < m < |BorderFreeSep|
      ensures BorderFreeSep[..m] != BorderFreeSep[|BorderFreeSep| - m..]
    {
      assert BorderFreeSep[..m][0] == '-' && BorderFreeSep[|BorderFreeSep| - m..][0] == '|';
    }
  }

  /**
   * The corrected round trip: with a border-free separator, every pair of
   * separator-free uids is read back exactly as it was written.
   */
  lemma CorrectedRoundTrip(cal: string, ev: string)
    requires !Contains(cal, BorderFreeSep) && !Contains(ev, BorderFreeSep)
    ensures DecodeWith(BorderFreeSep, EncodeWith(BorderFreeSep, Some(cal), ev)) == Pair(Some(cal), ev)
  {
    SeparatorBorders();
    BorderFreeSplitJoin(cal, ev, BorderFreeSep);
  }
}
