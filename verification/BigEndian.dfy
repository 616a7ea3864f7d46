/** Fixed-width big-endian numbers, as every length prefix of the system is written. */
module BigEndian {
  import opened Bytes

  function Power256(width: nat): (n: nat)
    ensures n > 0
  {
    if width == 0 then 1 else 256 * Power256(width - 1)
  }

  function Value(s: bytes): nat {
    if s == [] then 0 else Value(s[..|s| - 1]) * 256 + s[|s| - 1] as int
  }

  function Digits(n: nat, width: nat): (s: bytes)
    ensures |s| == width
  {
    if width == 0 then []
    else
      var low: int := n % 256;
      Digits(n / 256, width - 1) + [low as byte]
  }

  lemma {:induction false} ValueOfDigits(n: nat, width: nat)
    requires n < Power256(width)
    ensures Value(Digits(n, width)) == n
  {
    if width > 0 {
      ValueOfDigits(n / 256, width - 1);
      var s := Digits(n, width);
      assert s[..width - 1] == Digits(n / 256, width - 1);
    }
  }

  lemma {:induction false} DigitsOfValue(s: bytes)
    ensures Value(s) < Power256(|s|) && Digits(Value(s), |s|) == s
  {
    if s != [] {
      var init := s[..|s| - 1];
      DigitsOfValue(init);
      assert s == init + [s[|s| - 1]];
    }
  }

  /** The shifts and ors of the C code compute the value of four octets. */
  lemma Word(s: bytes)
    requires |s| == 4
    ensures Value(s) == s[0] as int * 0x100_0000 + s[1] as int * 0x1_0000 + s[2] as int * 0x100 + s[3] as int
  {
    assert s[..3][..2] == s[..2] && s[..2][..1] == s[..1] && s[..1][..0] == [];
    assert Value(s[..1]) == s[0] as int;
    assert Value(s[..2]) == Value(s[..1]) * 256 + s[1] as int;
    assert Value(s[..3]) == Value(s[..2]) * 256 + s[2] as int;
  }

  lemma PowersOf256()
    ensures Power256(4) == 0x1_0000_0000 && Power256(8) == 0x1_0000_0000_0000_0000
  {
    assert Power256(1) == 256 && Power256(2) == 0x1_0000 && Power256(3) == 0x100_0000;
    assert Power256(4) == 0x1_0000_0000;
    assert Power256(5) == 0x100_0000_0000 && Power256(6) == 0x1_0000_0000_0000;
    assert Power256(7) == 0x100_0000_0000_0000;
  }
}
