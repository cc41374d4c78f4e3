/** The two whole-second clock renderings: the countdown shown during play
    (`formatTime` in Game.tsx, minutes unpadded) and the one on the pre-game
    screen (`formatTime` in PreGameModal.tsx, minutes padded to two
    characters). Both split `seconds` with `Math.floor(seconds / 60)` and
    JavaScript's `%`, and put a '0' in front of a seconds field below 10. */
module Clock {
  import opened Decimal

  /** JavaScript's `seconds % 60`: the remainder takes the sign of the
      dividend. */
  function JsRem60(a: int): (r: int)
    ensures a >= 0 ==> r == a % 60
    ensures a < 0 ==> -60 < r <= 0 && (a - r) % 60 == 0
  {
    if a >= 0 then a % 60 else -((-a) % 60)
  }

  /** `${secs < 10 ? '0' : ''}${secs}` with `secs = seconds % 60`. */
  function SecondsField(seconds: int): string {
    var secs := JsRem60(seconds);
    (if secs < 10 then "0" else "") + IntToString(secs)
  }

  /** Game.tsx `formatTime`; `seconds / 60` is `Math.floor(seconds / 60)`,
      since Dafny's division rounds down when the divisor is positive. */
  function GameClock(seconds: int): string {
    IntToString(seconds / 60) + ":" + SecondsField(seconds)
  }

  /** PreGameModal.tsx `formatTime`. */
  function ModalClock(seconds: int): string {
    PadStart(IntToString(seconds / 60), 2, '0') + ":" + SecondsField(seconds)
  }

  /** For a non-negative count the seconds field is always two digits, a
      leading '0' exactly when the seconds are below 10, and it reads back as
      the seconds past the minute. */
  lemma SecondsFieldDigits(seconds: int)
    requires seconds >= 0
    ensures var f := SecondsField(seconds);
      && |f| == 2 && AllDigits(f)
      && (f[0] == '0' <==> seconds % 60 < 10)
      && ParseNat(f) == seconds % 60
  {
    var secs := seconds % 60;
    var f := SecondsField(seconds);
    ParseNatToString(secs);
    if secs < 10 {
      assert f == "0" + NatToString(secs);
      ParseLeadingZeros("0", NatToString(secs));
    } else {
      assert f == NatToString(secs);
      assert secs / 10 < 10;
    }
  }

  /** The countdown reads "M:SS": reading both fields back as numbers gives
      the seconds again. */
  lemma GameClockRoundTrip(seconds: int)
    requires seconds >= 0
    ensures var r := GameClock(seconds);
      && |r| >= 4 && r[|r| - 3] == ':'
      && r[..|r| - 3] == NatToString(seconds / 60)
      && AllDigits(r[|r| - 2..])
      && 60 * ParseNat(r[..|r| - 3]) + ParseNat(r[|r| - 2..]) == seconds
  {
    var m := NatToString(seconds / 60);
    var f := SecondsField(seconds);
    SecondsFieldDigits(seconds);
    ParseNatToString(seconds / 60);
    var r := GameClock(seconds);
    assert r == m + ":" + f;
    assert r[..|r| - 3] == m;
    assert r[|r| - 2..] == f;
  }

  /** The pre-game clock reads "MM:SS" with at least two minute digits, and
      it too reads back as the seconds. */
  lemma ModalClockRoundTrip(seconds: int)
    requires seconds >= 0
    ensures var r := ModalClock(seconds);
      && |r| >= 5 && r[|r| - 3] == ':'
      && AllDigits(r[..|r| - 3]) && AllDigits(r[|r| - 2..])
      && 60 * ParseNat(r[..|r| - 3]) + ParseNat(r[|r| - 2..]) == seconds
  {
    var m := PadStart(NatToString(seconds / 60), 2, '0');
    var f := SecondsField(seconds);
    SecondsFieldDigits(seconds);
    PaddedMinutes(seconds / 60);
    var r := ModalClock(seconds);
    assert r == m + ":" + f;
    assert r[..|r| - 3] == m;
    assert r[|r| - 2..] == f;
  }

  /** Zero-padding the minutes keeps their value. */
  lemma PaddedMinutes(n: nat)
    ensures var m := PadStart(NatToString(n), 2, '0');
      |m| >= 2 && AllDigits(m) && ParseNat(m) == n
  {
    var s := NatToString(n);
    ParseNatToString(n);
    if |s| < 2 {
      assert PadStart(s, 2, '0') == "0" + s;
      ParseLeadingZeros("0", s);
    }
  }

  /** Below 100 minutes the pre-game clock is exactly five characters. */
  lemma ModalClockWidth(seconds: int)
    requires 0 <= seconds < 6000
    ensures |ModalClock(seconds)| == 5 && ModalClock(seconds)[2] == ':'
  {
    SecondsFieldDigits(seconds);
    assert seconds / 60 < 100;
  }

  /** The two clocks differ only in the padding of the minutes: from ten
      minutes on they agree, below that the pre-game clock has one more
      leading '0'. */
  lemma ClocksAgree(seconds: int)
    requires seconds >= 0
    ensures seconds >= 600 ==> ModalClock(seconds) == GameClock(seconds)
    ensures seconds < 600 ==> ModalClock(seconds) == "0" + GameClock(seconds)
  {
    var n := NatToString(seconds / 60);
    if seconds < 600 {
      assert |n| == 1;
      assert PadStart(n, 2, '0') == "0" + n;
    } else {
      assert |n| >= 2;
    }
  }
}
