/**
 Variable-length integers: base 128 with the high bit on every byte but the last, and one subtracted from each digit
 above the last, so that every number has one encoding.
 */
module VarInts {
  import opened Options
  import opened Sequences

  type Bytes = seq<nat>

  /** The bytes of the digits above the last one. */
  function Upper(n: nat): Bytes {
    if n <= 0x7F then [0x80 + n] else Upper(n / 0x80 - 1) + [0x80 + n % 0x80]
  }

  function VarInt(n: nat): Bytes {
    if n <= 0x7F then [n] else Upper(n / 0x80 - 1) + [n % 0x80]
  }

  /**
   What `WriteVarInt` does with a signed number: a negative one passes the test for a last digit, so only its low seven
   bits are written.
   */
  function SignedVarInt(n: int): Bytes {
    if n < 0 then [n % 0x80] else VarInt(n)
  }

  datatype Read<T> = Read(value: T, rest: Bytes)

  /** Reading on with the digits so far. */
  function ReadFrom(n: nat, s: Bytes): Option<Read<nat>>
    decreases |s|
  {
    if s == [] then None
    else
      var m := n * 0x80 + s[0] % 0x80;
      if s[0] >= 0x80 then ReadFrom(m + 1, s[1..]) else Some(Read(m, s[1..]))
  }

  lemma {:induction false} ReadUpper(n: nat, s: Bytes)
    ensures ReadFrom(0, Upper(n) + s) == ReadFrom(n + 1, s)
  {
    if n <= 0x7F {
      assert (Upper(n) + s)[1..] == s;
    } else {
      var b := [0x80 + n % 0x80];
      assert Upper(n) + s == Upper(n / 0x80 - 1) + (b + s);
      ReadUpper(n / 0x80 - 1, b + s);
      LastDigit(n, 0x80 + n % 0x80, s);
    }
  }

  lemma LastDigit(n: nat, byte: nat, s: Bytes)
    requires n > 0x7F && byte % 0x80 == n % 0x80
    ensures ReadFrom(n / 0x80, [byte] + s) == if byte >= 0x80 then ReadFrom(n + 1, s) else Some(Read(n, s))
  {
    assert ([byte] + s)[1..] == s;
  }

  /** A number is read back from its bytes, and exactly these are consumed. */
  lemma ReadVarIntBack(n: nat, s: Bytes)
    ensures ReadFrom(0, VarInt(n) + s) == Some(Read(n, s))
  {
    if n <= 0x7F {
      assert (VarInt(n) + s)[1..] == s;
    } else {
      var b := [n % 0x80];
      assert VarInt(n) + s == Upper(n / 0x80 - 1) + (b + s);
      ReadUpper(n / 0x80 - 1, b + s);
      LastDigit(n, n % 0x80, s);
    }
  }

  ghost predicate AreBytes(s: Bytes) {
    forall i | 0 <= i < |s| :: s[i] < 0x100
  }

  /** The next digit of a number that goes on, and the last one. */
  lemma NextDigit(k: nat, byte: nat)
    requires byte < 0x100
    ensures var m := (k + 1) * 0x80 + byte % 0x80;
      if byte >= 0x80 then Upper(m) == Upper(k) + [byte] else VarInt(m) == Upper(k) + [byte]
  {
    var m := (k + 1) * 0x80 + byte % 0x80;
    assert m / 0x80 == k + 1 && m % 0x80 == byte % 0x80;
  }

  lemma {:induction false} OnlyAfter(k: nat, s: Bytes, r: Read<nat>)
    requires AreBytes(s) && ReadFrom(k + 1, s) == Some(r)
    ensures Upper(k) + s == VarInt(r.value) + r.rest
    decreases |s|
  {
    hide Upper, VarInt;
    assert s == [s[0]] + s[1..];
    NextDigit(k, s[0]);
    if s[0] >= 0x80 {
      var m := (k + 1) * 0x80 + s[0] % 0x80;
      OnlyAfter(m, s[1..], r);
      assert Upper(k) + s == Upper(m) + s[1..];
    }
  }

  /** Every number has exactly one encoding: whatever is read as a number begins with the bytes of that number. */
  lemma OneEncoding(s: Bytes, r: Read<nat>)
    requires AreBytes(s) && ReadFrom(0, s) == Some(r)
    ensures s == VarInt(r.value) + r.rest
  {
    assert s == [s[0]] + s[1..];
    if s[0] >= 0x80 {
      OnlyAfter(s[0] - 0x80, s[1..], r);
    }
  }

  /** How long encodings are. */
  lemma Lengths(n: nat)
    ensures |VarInt(n)| >= 1
    ensures |VarInt(n)| == 1 <==> n <= 127
    ensures |VarInt(n)| == 2 <==> 128 <= n <= 16511
    ensures |VarInt(n)| == 3 <==> 16512 <= n <= 2113663
  {
    if n > 0x7F {
      var m := n / 0x80 - 1;
      UpperPositive(m);
      if m > 0x7F {
        UpperPositive(m / 0x80 - 1);
        if m / 0x80 - 1 > 0x7F {
          UpperPositive((m / 0x80 - 1) / 0x80 - 1);
        }
      }
    }
  }

  lemma UpperPositive(n: nat)
    ensures |Upper(n)| >= 1 && (n > 0x7F ==> |Upper(n)| == |Upper(n / 0x80 - 1)| + 1)
  {
  }

  /** The examples of the documentation that the code agrees with. */
  lemma Examples()
    ensures VarInt(0) == [0x00] && VarInt(1) == [0x01] && VarInt(127) == [0x7F]
    ensures VarInt(128) == [0x80, 0x00] && VarInt(255) == [0x80, 0x7F] && VarInt(256) == [0x81, 0x00]
    ensures VarInt(16383) == [0xFE, 0x7F] && VarInt(16384) == [0xFF, 0x00]
    ensures VarInt(0x1_0000_0000) == [0x8E, 0xFE, 0xFE, 0xFF, 0x00]
  {
    var a, b, c := [0x8E], [0x8E, 0xFE], [0x8E, 0xFE, 0xFE];
    assert Upper(14) == a && Upper(0x7FE) == b && Upper(0x3FFFE) == c;
    assert Upper(0x1FFFFFF) == c + [0xFF];
  }

  /** The two examples it does not agree with. */
  lemma ExamplesDiffer()
    ensures VarInt(16511) == [0xFF, 0x7F] != [0x80, 0xFF, 0x7F]
    ensures VarInt(65535) == [0x82, 0xFE, 0x7F] != [0x82, 0xFD, 0x7F]
  {
    assert Upper(2) == [0x82] && Upper(510) == [0x82, 0xFE];
  }

  /** A signed number is read back exactly when it is not negative. */
  lemma ReadSignedBack(n: int, s: Bytes)
    ensures ReadFrom(0, SignedVarInt(n) + s).Some?
    ensures var r := ReadFrom(0, SignedVarInt(n) + s).value; r.rest == s && (r.value == n <==> n >= 0)
  {
    if n >= 0 {
      ReadVarIntBack(n, s);
    } else {
      assert ([n % 0x80] + s)[1..] == s;
    }
  }

  lemma {:induction false} UpperLength(n: nat)
    ensures n < 0x80 ==> |Upper(n)| == 1
    ensures n < 0x4080 ==> |Upper(n)| <= 2
    ensures n < 0x204080 ==> |Upper(n)| <= 3
    ensures n < 0x10204080 ==> |Upper(n)| <= 4
  {
    if n > 0x7F {
      UpperLength(n / 0x80 - 1);
    }
  }

  /** A 32-bit number takes at most the five bytes of the buffer. */
  lemma FiveBytesSuffice(n: nat)
    requires n < 0x1_0000_0000
    ensures |VarInt(n)| <= 5
  {
    if n > 0x7F {
      UpperLength(n / 0x80 - 1);
    }
  }

  lemma ReversedSnoc(s: Bytes, x: nat)
    ensures Reversed(s + [x]) == [x] + Reversed(s)
  {
  }

  /** What is still to be produced: the last digit looks different from the others. */
  function Pending(n: nat, first: bool): Bytes {
    if first then VarInt(n) else Upper(n)
  }

  lemma PendingStep(n: nat, tmp: Bytes)
    ensures var byte := n % 0x80 + if tmp == [] then 0 else 0x80;
      Pending(n, tmp == []) + Reversed(tmp) ==
      (if n <= 0x7F then [] else Pending(n / 0x80 - 1, false)) + Reversed(tmp + [byte])
  {
    var byte := n % 0x80 + if tmp == [] then 0 else 0x80;
    ReversedSnoc(tmp, byte);
    if n > 0x7F {
      var more := Upper(n / 0x80 - 1);
      assert Pending(n, tmp == []) == more + [byte];
      assert more + [byte] + Reversed(tmp) == more + ([byte] + Reversed(tmp));
    }
  }

  /** The digits, from the last to the first. */
  method Collect(number: nat) returns (tmp: Bytes)
    ensures Reversed(tmp) == VarInt(number)
  {
    var n := number;
    tmp := [];
    assert Pending(n, true) + Reversed([]) == VarInt(number);
    while true
      invariant n >= 0 && VarInt(number) == Pending(n, tmp == []) + Reversed(tmp)
      decreases n
    {
      PendingStep(n, tmp);
      tmp := tmp + [n % 0x80 + if tmp == [] then 0 else 0x80];
      if n <= 0x7F {
        break;
      }
      n := n / 0x80 - 1;
    }
  }

  method Reverse(tmp: Bytes) returns (out: Bytes)
    ensures out == Reversed(tmp)
  {
    out := [];
    var len: nat := |tmp|;
    assert tmp[..len] == tmp;
    while len > 0
      invariant len <= |tmp| && Reversed(tmp) == out + Reversed(tmp[..len])
    {
      var x := tmp[len - 1];
      assert tmp[..len] == tmp[..len - 1] + [x];
      ReversedSnoc(tmp[..len - 1], x);
      out := out + [x];
      len := len - 1;
    }
  }

  /** The digits are produced from the last to the first and then written out the other way round. */
  method WriteVarInt(number: int) returns (out: Bytes)
    ensures out == SignedVarInt(number)
  {
    if number < 0 {
      return [number % 0x80];
    }
    var tmp := Collect(number);
    out := Reverse(tmp);
  }

  method GetSizeOfVarInt(number: int) returns (size: nat)
    ensures size == |SignedVarInt(number)|
  {
    size := 0;
    var n := number;
    while true
      invariant number < 0 ==> n == number && size == 0
      invariant number >= 0 ==> n >= 0 && |VarInt(number)| == size + if size == 0 then |VarInt(n)| else |Upper(n)|
      decreases if n < 0 then 0 else n
    {
      size := size + 1;
      if n <= 0x7F {
        break;
      }
      n := n / 0x80 - 1;
    }
  }

  method ReadVarInt(s: Bytes) returns (r: Option<Read<nat>>)
    ensures r == ReadFrom(0, s)
  {
    var n, i := 0, 0;
    while i < |s|
      invariant 0 <= i <= |s| && ReadFrom(0, s) == ReadFrom(n, s[i..])
    {
      var chData := s[i];
      assert s[i..][1..] == s[i + 1..];
      n := n * 0x80 + chData % 0x80;
      i := i + 1;
      if chData >= 0x80 {
        n := n + 1;
      } else {
        return Some(Read(n, s[i..]));
      }
    }
    r := None;
  }
}
