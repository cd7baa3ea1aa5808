/** The Konami-code detector: a buffer of the most recent key codes, at most
    as many as the target code has, compared with the target after both are
    joined into strings of decimal digits. */
module Konami {

  /** Up Up Down Down Left Right Left Right B A. */
  const TargetCode: seq<nat> := [38, 38, 40, 40, 37, 39, 37, 39, 66, 65]

  function Digit(d: nat): (c: char)
    requires d < 10
    ensures '0' <= c <= '9'
  {
    ('0' as int + d) as char
  }

  /** The decimal text of a key code, as JavaScript converts a non-negative
      integer to a string. */
  function Decimal(n: nat): (s: string)
    ensures |s| >= 1
    ensures n < 10 ==> |s| == 1
    ensures 10 <= n < 100 ==> |s| == 2
    decreases n
  {
    if n < 10 then [Digit(n)] else Decimal(n / 10) + [Digit(n % 10)]
  }

  /** codes.join(''): the decimal texts one after the other. */
  function Join(codes: seq<nat>): (r: string)
    ensures |r| >= |codes|
  {
    if codes == [] then "" else Decimal(codes[0]) + Join(codes[1..])
  }

  /** s.slice(-n) for n > 0: the last n elements, or all of s when it is
      shorter. */
  function Last(s: seq<nat>, n: nat): (r: seq<nat>)
    requires n > 0
    ensures |r| == if |s| < n then |s| else n
    ensures r == s[|s| - |r|..]
  {
    if |s| > n then s[|s| - n..] else s
  }

  /** The buffer after one key: the code is appended, then only the last
      |target| codes are kept. */
  function Push(buffer: seq<nat>, code: nat, target: seq<nat>): (r: seq<nat>)
    requires target != []
    ensures 0 < |r| <= |target| && |r| <= |buffer| + 1 && r[|r| - 1] == code
    ensures r == (buffer + [code])[|buffer| + 1 - |r|..]
  {
    Last(buffer + [code], |target|)
  }

  /** The buffer after the given keys, pressed from an empty buffer. */
  function Buffer(keys: seq<nat>, target: seq<nat>): seq<nat>
    requires target != []
  {
    if keys == [] then [] else Push(Buffer(keys[..|keys| - 1], target), keys[|keys| - 1], target)
  }

  /** The check made after every key: the joined buffer equals the joined
      target. */
  predicate Activated(buffer: seq<nat>, target: seq<nat>)
  {
    Join(buffer) == Join(target)
  }

  /** Appending after a suffix gives a suffix of the longer sequence. */
  lemma SuffixAppend(s: seq<nat>, x: nat, start: nat)
    requires start <= |s|
    ensures s[start..] + [x] == (s + [x])[start..]
  {
  }

  /** A suffix of a suffix is a suffix. */
  lemma SuffixOfSuffix(s: seq<nat>, a: nat, b: nat)
    requires a <= |s| && b <= |s| - a
    ensures s[a..][b..] == s[a + b..]
  {
  }

  /** The buffer holds the most recent keys: the last |target|, or all of
      them while fewer were pressed. */
  lemma {:induction false} BufferHoldsRecentKeys(keys: seq<nat>, target: seq<nat>)
    requires target != []
    ensures |Buffer(keys, target)| == if |keys| < |target| then |keys| else |target|
    ensures Buffer(keys, target) == keys[|keys| - |Buffer(keys, target)|..]
  {
    if keys != [] {
      var init, code := keys[..|keys| - 1], keys[|keys| - 1];
      assert keys == init + [code];
      BufferHoldsRecentKeys(init, target);
      var before := Buffer(init, target);
      var start := |init| - |before|;
      SuffixAppend(init, code, start);
      var s := before + [code];
      assert s == keys[start..];
      var r := Last(s, |target|);
      assert Buffer(keys, target) == r;
      SuffixOfSuffix(keys, start, |s| - |r|);
    }
  }

  /** Pressing the target as the last keys activates the detector. */
  lemma TargetActivates(keys: seq<nat>, target: seq<nat>)
    requires target != []
    requires |keys| >= |target| && keys[|keys| - |target|..] == target
    ensures Activated(Buffer(keys, target), target)
  {
    BufferHoldsRecentKeys(keys, target);
    var b := Buffer(keys, target);
    assert b == target;
  }

  lemma {:induction false} JoinAppend(a: seq<nat>, b: seq<nat>)
    ensures Join(a + b) == Join(a) + Join(b)
  {
    if a != [] {
      assert (a + b)[1..] == a[1..] + b;
      JoinAppend(a[1..], b);
    } else {
      assert a + b == b;
    }
  }

  /** The codes 383, 8 and 38, 38 join to the same text, whatever follows. */
  lemma JoinSameText(tail: seq<nat>)
    ensures Join([383, 8] + tail) == Join([38, 38] + tail)
  {
    JoinAppend([383, 8], tail);
    JoinAppend([38, 38], tail);
    assert Decimal(38) == "38";
    assert Decimal(383) == "383";
    assert Decimal(8) == "8";
    assert [383, 8][1..] == [8] && [38, 38][1..] == [38];
    assert [8][1..] == [] && [38][1..] == [];
  }

  /** Joining forgets where one code ends and the next begins: for a target
      that starts 38, 38, as the Konami code does, any keys ending in 383, 8
      followed by the rest of the target (383 being a code no keyboard sends)
      leave a buffer that differs from the target and still activates the
      detector. */
  lemma JoinCollision(keys: seq<nat>, target: seq<nat>)
    requires |target| >= 2 && target[0] == 38 && target[1] == 38
    requires |keys| >= |target| && keys[|keys| - |target|..] == [383, 8] + target[2..]
    ensures Activated(Buffer(keys, target), target)
    ensures Buffer(keys, target) != target
  {
    var tail := target[2..];
    BufferHoldsRecentKeys(keys, target);
    var b := Buffer(keys, target);
    assert b == [383, 8] + tail;
    assert b[0] != target[0];
    JoinSameText(tail);
    assert [38, 38] + tail == target;
  }

  predicate TwoDigit(codes: seq<nat>)
  {
    forall k :: 0 <= k < |codes| ==> 10 <= codes[k] < 100
  }

  lemma DecimalTwoDigit(n: nat)
    requires 10 <= n < 100
    ensures Decimal(n) == [Digit(n / 10), Digit(n % 10)]
  {
  }

  lemma {:induction false} JoinTwoDigitLength(codes: seq<nat>)
    requires TwoDigit(codes)
    ensures |Join(codes)| == 2 * |codes|
  {
    if codes != [] {
      JoinTwoDigitLength(codes[1..]);
    }
  }

  /** For two-digit codes joining loses nothing: equal joined texts mean
      equal codes. */
  lemma {:induction false} JoinTwoDigitInjective(a: seq<nat>, b: seq<nat>)
    requires TwoDigit(a) && TwoDigit(b) && Join(a) == Join(b)
    ensures a == b
  {
    JoinTwoDigitLength(a);
    JoinTwoDigitLength(b);
    if a != [] {
      DecimalTwoDigit(a[0]);
      DecimalTwoDigit(b[0]);
      assert Join(a)[..2] == Decimal(a[0]);
      assert Join(b)[..2] == Decimal(b[0]);
      assert a[0] / 10 == b[0] / 10 && a[0] % 10 == b[0] % 10;
      assert Join(a)[2..] == Join(a[1..]);
      assert Join(b)[2..] == Join(b[1..]);
      JoinTwoDigitInjective(a[1..], b[1..]);
      assert a == [a[0]] + a[1..];
      assert b == [b[0]] + b[1..];
    }
  }

  /** Every code of the Konami code has two digits. */
  lemma TargetIsTwoDigit()
    ensures TwoDigit(TargetCode)
  {
  }

  /** While every buffered code has two digits, as every code of a two-digit
      target such as the Konami code has, the detector activates exactly on
      the target itself. */
  lemma TwoDigitActivation(buffer: seq<nat>, target: seq<nat>)
    requires TwoDigit(buffer) && TwoDigit(target)
    ensures Activated(buffer, target) <==> buffer == target
  {
    if Activated(buffer, target) {
      JoinTwoDigitInjective(buffer, target);
    }
  }

  /** For the Konami code itself: a buffer of two-digit codes (every arrow
      and letter key) activates the detector exactly when it is the Konami
      code. */
  lemma KonamiActivation(buffer: seq<nat>)
    requires TwoDigit(buffer)
    ensures Activated(buffer, TargetCode) <==> buffer == TargetCode
  {
    TargetIsTwoDigit();
    TwoDigitActivation(buffer, TargetCode);
  }

  /** The key listener's buffer and target, with the keys pressed so far as
      a ghost history. */
  class KonamiListener {
    var konamiCode: seq<nat>
    const targetCode: seq<nat>
    ghost var keys: seq<nat>

    ghost predicate Valid()
      reads this
    {
      targetCode != [] && konamiCode == Buffer(keys, targetCode)
    }

    constructor ()
      ensures Valid() && targetCode == TargetCode
      ensures keys == [] && konamiCode == []
    {
      konamiCode := [];
      targetCode := TargetCode;
      keys := [];
    }

    /** One keydown event: push, keep the last |targetCode| codes, compare
        the joined texts. */
    method KeyDown(keyCode: nat) returns (activated: bool)
      requires Valid()
      modifies this
      ensures Valid() && keys == old(keys) + [keyCode]
      ensures konamiCode == Push(old(konamiCode), keyCode, targetCode)
      ensures activated == Activated(konamiCode, targetCode)
    {
      konamiCode := konamiCode + [keyCode];
      konamiCode := Last(konamiCode, |targetCode|);
      keys := keys + [keyCode];
      assert keys[..|keys| - 1] == old(keys);
      activated := Join(konamiCode) == Join(targetCode);
    }
  }
}
