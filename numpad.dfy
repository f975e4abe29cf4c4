/**
 * The digit-entry pad of components/Numpad.tsx: a buffer of at most four
 * digits filled like a microwave keypad, shown as MM:SS after left-padding
 * with zeros, and confirmed as MM * 60 + SS seconds.
 */
module Numpad {
  import opened Wrappers
  import opened Digits

  /** The most digits the buffer holds. */
  const Capacity: nat := 4

  /** The value of a digit button (0..9). */
  type Digit = d: nat | d < 10

  /** `handleNumClick`: a digit is appended only while the buffer holds fewer than four. */
  function AppendDigit(buffer: string, d: Digit): (r: string)
    ensures |r| == if |buffer| < Capacity then |buffer| + 1 else |buffer|
    ensures r[..|buffer|] == buffer
  {
    if |buffer| < Capacity then buffer + [DigitChar(d)] else buffer
  }

  /** `handleDelete`: `slice(0, -1)`, which leaves an empty buffer empty. */
  function DeleteLast(buffer: string): (r: string)
    ensures |r| == if buffer == [] then 0 else |buffer| - 1
    ensures r == buffer[..|r|]
  {
    if buffer == [] then [] else buffer[..|buffer| - 1]
  }

  /** `formattedDisplay`: pad to four with '0', MM is characters 0-1 and SS characters 2-3. */
  function FormattedDisplay(buffer: string): (r: (string, string))
    ensures |r.0| == 2 && |r.1| == 2
  {
    var raw := PadStart(buffer, Capacity, '0');
    (raw[0..2], raw[2..4])
  }

  /** The two halves of the display are the buffer left-padded with zeros to four characters. */
  lemma FormattedDisplaySpec(buffer: string)
    requires |buffer| <= Capacity
    ensures FormattedDisplay(buffer).0 + FormattedDisplay(buffer).1 == Zeros(Capacity - |buffer|) + buffer
  {
    PadStartZeros(buffer, Capacity);
    assert FormattedDisplay(buffer).0 + FormattedDisplay(buffer).1 == PadStart(buffer, Capacity, '0')[..4];
  }

  lemma FormattedDisplayDigits(buffer: string)
    requires IsDigits(buffer)
    ensures IsDigits(FormattedDisplay(buffer).0) && IsDigits(FormattedDisplay(buffer).1)
  {
    var raw := PadStart(buffer, Capacity, '0');
    PadStartZeros(buffer, Capacity);
    var m, s := FormattedDisplay(buffer).0, FormattedDisplay(buffer).1;
    var k := if |buffer| >= Capacity then 0 else Capacity - |buffer|;
    ParseLeadingZeros(k, buffer);
    assert IsDigits(raw);
    assert forall i :: 0 <= i < 2 ==> m[i] == raw[i] && s[i] == raw[i + 2];
  }

  /** `handleConfirm`: MM * 60 + SS, handed on only when it is not negative. */
  function ConfirmSeconds(buffer: string): (r: Option<int>)
    requires IsDigits(buffer)
    ensures r.Some? && r.value >= 0
  {
    FormattedDisplayDigits(buffer);
    var display := FormattedDisplay(buffer);
    var totalSeconds: int := ParseDecimal(display.0) * 60 + ParseDecimal(display.1);
    if totalSeconds >= 0 then Some(totalSeconds) else None
  }

  /** A four-digit number read as MMSS, converted to seconds: the reference for confirm. */
  function MmssSeconds(n: nat): nat {
    n / 100 * 60 + n % 100
  }

  /** Pressing a digit: at most four digits are kept, and a press on a full buffer is ignored. */
  lemma AppendDigitSpec(buffer: string, d: Digit)
    ensures |buffer| <= Capacity ==> |AppendDigit(buffer, d)| <= Capacity
    ensures |buffer| >= Capacity ==> AppendDigit(buffer, d) == buffer
    ensures |buffer| < Capacity ==> |AppendDigit(buffer, d)| == |buffer| + 1
    ensures |buffer| < Capacity ==> AppendDigit(buffer, d)[..|buffer|] == buffer
    ensures |buffer| < Capacity ==> AppendDigit(buffer, d)[|buffer|] == DigitChar(d)
  {
  }

  /** A digit press shifts the entered number one place left, as on a microwave keypad. */
  lemma AppendDigitShifts(buffer: string, d: Digit)
    requires IsDigits(buffer) && |buffer| < Capacity
    ensures IsDigits(AppendDigit(buffer, d))
    ensures ParseDecimal(AppendDigit(buffer, d)) == ParseDecimal(buffer) * 10 + d
  {
    var b := AppendDigit(buffer, d);
    assert b[..|b| - 1] == buffer;
  }

  /** Delete removes exactly the last character; on an empty buffer it does nothing. */
  lemma DeleteLastSpec(buffer: string)
    ensures buffer == [] ==> DeleteLast(buffer) == []
    ensures buffer != [] ==> DeleteLast(buffer) + [buffer[|buffer| - 1]] == buffer
  {
  }

  /** Delete undoes a digit press that was not ignored. */
  lemma DeleteUndoesAppend(buffer: string, d: Digit)
    requires |buffer| < Capacity
    ensures DeleteLast(AppendDigit(buffer, d)) == buffer
  {
  }

  /** The first two digits entered fill SS; MM stays "00" until a third digit arrives. */
  lemma DisplayFillsSecondsFirst(buffer: string)
    requires |buffer| <= 2
    ensures FormattedDisplay(buffer).0 == "00"
    ensures FormattedDisplay(buffer).1 == Zeros(2 - |buffer|) + buffer
  {
    FormattedDisplaySpec(buffer);
    var m, s := FormattedDisplay(buffer).0, FormattedDisplay(buffer).1;
    var raw := Zeros(Capacity - |buffer|) + buffer;
    assert m == (m + s)[..2] && s == (m + s)[2..];
  }

  /**
   * Confirm always hands on a value: the entry read as a four-digit number
   * MMSS gives MM * 60 + SS, which is at most 99 * 60 + 99 = 6039.
   */
  lemma ConfirmSecondsSpec(buffer: string)
    requires IsDigits(buffer) && |buffer| <= Capacity
    ensures ConfirmSeconds(buffer) == Some(MmssSeconds(ParseDecimal(buffer)))
    ensures MmssSeconds(ParseDecimal(buffer)) <= 6039
  {
    ConfirmSecondsOfDisplay(buffer);
    DisplayIsMmss(buffer);
    ConfirmIsMmss(buffer);
  }

  /**
   * Proof step of ConfirmSecondsSpec: joins the facts of
   * ConfirmSecondsOfDisplay and DisplayIsMmss, without the length bound in
   * context, which makes the solver's search too wide.
   */
  lemma ConfirmIsMmss(buffer: string)
    requires IsDigits(buffer)
    requires IsDigits(FormattedDisplay(buffer).0) && IsDigits(FormattedDisplay(buffer).1)
    requires ConfirmSeconds(buffer) == Some(ParseDecimal(FormattedDisplay(buffer).0) * 60 + ParseDecimal(FormattedDisplay(buffer).1))
    requires MmssSeconds(ParseDecimal(buffer)) == ParseDecimal(FormattedDisplay(buffer).0) * 60 + ParseDecimal(FormattedDisplay(buffer).1)
    ensures ConfirmSeconds(buffer) == Some(MmssSeconds(ParseDecimal(buffer)))
  {
  }

  lemma DisplayIsMmss(buffer: string)
    requires IsDigits(buffer) && |buffer| <= Capacity
    ensures IsDigits(FormattedDisplay(buffer).0) && IsDigits(FormattedDisplay(buffer).1)
    ensures MmssSeconds(ParseDecimal(buffer)) == ParseDecimal(FormattedDisplay(buffer).0) * 60 + ParseDecimal(FormattedDisplay(buffer).1) <= 6039
  {
    DisplayReadsAsNumber(buffer);
    MmssOfHundreds(ParseDecimal(buffer), ParseDecimal(FormattedDisplay(buffer).0), ParseDecimal(FormattedDisplay(buffer).1));
  }

  lemma MmssOfHundreds(n: nat, mm: nat, ss: nat)
    requires mm < 100 && ss < 100 && n == mm * 100 + ss
    ensures MmssSeconds(n) == mm * 60 + ss <= 6039
  {
    assert n / 100 == mm && n % 100 == ss;
    assert mm * 60 <= 99 * 60;
  }

  /** MM and SS are the hundreds and the rest of the entered number. */
  lemma DisplayReadsAsNumber(buffer: string)
    requires IsDigits(buffer) && |buffer| <= Capacity
    ensures IsDigits(FormattedDisplay(buffer).0) && IsDigits(FormattedDisplay(buffer).1)
    ensures ParseDecimal(FormattedDisplay(buffer).0) < 100 && ParseDecimal(FormattedDisplay(buffer).1) < 100
    ensures ParseDecimal(buffer) == ParseDecimal(FormattedDisplay(buffer).0) * 100 + ParseDecimal(FormattedDisplay(buffer).1)
  {
    FormattedDisplaySpec(buffer);
    FormattedDisplayDigits(buffer);
    var m, s := FormattedDisplay(buffer).0, FormattedDisplay(buffer).1;
    ParseLeadingZeros(Capacity - |buffer|, buffer);
    ParseAppend(m, s);
    ParseBound(m);
    ParseBound(s);
    assert Pow10(2) == 100;
  }

  lemma ConfirmSecondsOfDisplay(buffer: string)
    requires IsDigits(buffer)
    ensures IsDigits(FormattedDisplay(buffer).0) && IsDigits(FormattedDisplay(buffer).1)
    ensures ConfirmSeconds(buffer) == Some(ParseDecimal(FormattedDisplay(buffer).0) * 60 + ParseDecimal(FormattedDisplay(buffer).1))
  {
    FormattedDisplayDigits(buffer);
  }

  /** The entry state of the pad: the `inputString` of Numpad.tsx. */
  class NumpadInput {
    var input: string

    ghost predicate Valid()
      reads this
    {
      |input| <= Capacity && IsDigits(input)
    }

    constructor ()
      ensures Valid() && input == []
    {
      input := [];
    }

    /** `handleNumClick`. */
    method PressDigit(d: Digit)
      requires Valid()
      modifies this
      ensures Valid()
      ensures input == AppendDigit(old(input), d)
    {
      if |input| < Capacity {
        input := input + [DigitChar(d)];
      }
    }

    /** `handleDelete`. */
    method Delete()
      requires Valid()
      modifies this
      ensures Valid()
      ensures input == DeleteLast(old(input))
    {
      if input != [] {
        input := input[..|input| - 1];
      }
    }

    /** The "C" button (Numpad.tsx:71). */
    method Clear()
      requires Valid()
      modifies this
      ensures Valid() && input == []
    {
      input := [];
    }

    /**
     * The confirm button: disabled while nothing is entered; otherwise the
     * seconds handed to `onTimeSet`.
     */
    method Confirm() returns (seconds: Option<int>)
      requires Valid()
      ensures seconds.Some? <==> |input| > 0
      ensures seconds.Some? ==> seconds == ConfirmSeconds(input)
      ensures seconds.Some? ==> seconds.value == MmssSeconds(ParseDecimal(input)) && 0 <= seconds.value <= 6039
    {
      if |input| == 0 {
        return None;
      }
      ConfirmSecondsSpec(input);
      seconds := ConfirmSeconds(input);
    }
  }
}
