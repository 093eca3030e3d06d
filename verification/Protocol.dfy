/** The events and actions of include/gdbstub.h, what goes out on the socket, and the text of an error reply. */
module Protocol {
  import opened Bytes

  datatype Event = EventNone | EventCont | EventDetach | EventStep

  datatype Action = ActNone | ActResume | ActShutdown

  /** What the main thread hands to the socket. */
  datatype Out = Ack | Nack | Reply(text: seq<byte>)

  /** C's `int`, as the target's operations return it. */
  type int32 = v: int | -0x8000_0000 <= v < 0x8000_0000

  /** `(int) v` */
  function Int32(v: int): int32
  {
    var low := v % 0x1_0000_0000;
    if low < 0x8000_0000 then low else low - 0x1_0000_0000
  }

  /** The cast keeps the lower 32 bits, and there is only one such `int`. */
  lemma Int32Means(v: int, w: int32)
    ensures w == Int32(v) <==> w % 0x1_0000_0000 == v % 0x1_0000_0000
  {
  }

  /** `EFAULT` */
  const EFAULT: int32 := 14

  /** A number in decimal digits. */
  function Decimal(n: nat): seq<byte>
  {
    (if n < 10 then [] else Decimal(n / 10)) + [(0x30 + n % 10) as byte]
  }

  /** The number that digits stand for. */
  function Value(s: seq<byte>): int
  {
    if s == [] then 0 else 10 * Value(s[..|s| - 1]) + (s[|s| - 1] as int - 0x30)
  }

  /** The digits of a number stand for it, with no zero in front. */
  lemma {:induction false} DecimalMeans(n: nat)
    ensures Value(Decimal(n)) == n && Decimal(n) != [] && (n > 0 ==> Decimal(n)[0] != 0x30)
    decreases n
  {
    var d := Decimal(n);
    if n >= 10 {
      DecimalMeans(n / 10);
      assert d[..|d| - 1] == Decimal(n / 10);
    } else {
      assert d[..|d| - 1] == [];
    }
  }

  predicate AllDigits(s: seq<byte>)
  {
    forall b :: b in s ==> 0x30 <= b <= 0x39
  }

  lemma {:induction false} DecimalDigits(n: nat, digits: nat)
    requires digits > 0 && n < Pow10(digits)
    ensures 0 < |Decimal(n)| <= digits && AllDigits(Decimal(n))
    decreases digits
  {
    if n >= 10 { DecimalDigits(n / 10, digits - 1); }
  }

  function Pow10(n: nat): (p: nat)
    ensures p >= 1
  {
    if n == 0 then 1 else 10 * Pow10(n - 1)
  }

  /** sprintf(packet_str, "E%d", code) */
  function ErrorText(code: int32): seq<byte>
  {
    Ascii("E") + (if code < 0 then Ascii("-") else []) + Decimal(Magnitude(code))
  }

  function Magnitude(code: int): nat
  {
    if code < 0 then -code else code
  }

  /** It fits the smallest of the source's buffers, and is a C string. */
  lemma ErrorTextShort(code: int32)
    ensures |ErrorText(code)| < 16 && 0 !in ErrorText(code)
  {
    assert Pow10(5) == 100000;
    assert Pow10(8) == 1000 * Pow10(5);
    DecimalDigits(Magnitude(code), 10);
  }

  /** What a handler that may fail adds to the output. */
  function Logged(text: Option<seq<byte>>): (out: seq<Out>)
  {
    if text == None then [] else [Reply(text.value)]
  }

  // ---------------------------------------------------------------- replies that can be framed

  predicate HashFree(out: seq<Out>)
  {
    forall o :: o in out && o.Reply? ==> HASH !in o.text
  }

  predicate WithoutHash(text: string)
  {
    forall c :: c in text ==> c as int < 256 && c != '#'
  }

  lemma TextWithoutHash(text: string)
    requires WithoutHash(text)
    ensures HASH !in Ascii(text)
  {
    forall i | 0 <= i < |text| ensures Ascii(text)[i] != HASH {
      assert text[i] in text;
    }
  }

  lemma ErrorWithoutHash(code: int32)
    ensures HASH !in ErrorText(code)
  {
    assert Pow10(5) == 100000;
    assert Pow10(8) == 1000 * Pow10(5);
    DecimalDigits(Magnitude(code), 10);
    TextWithoutHash("E");
    TextWithoutHash("-");
  }

  lemma HashFreeAppend(a: seq<Out>, b: seq<Out>)
    requires HashFree(a) && HashFree(b)
    ensures HashFree(a + b)
  {
  }
}
