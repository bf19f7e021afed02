/** The binary literal suffix of common.h: `operator"" _b` hands its digit
    characters to the template conv2bin, which compiles only for a non-empty
    pack of '0' and '1' and evaluates it most significant digit first. A
    pack that does not compile is None here. */
module BinaryLiterals {
  import opened Machine
  import opened CText

  predicate IsBinaryDigit(c: char)
  {
    c == '0' || c == '1'
  }

  /** conv2bin<digits...>::value, which operator"" _b returns unchanged: the
      high digit times 2 to the number of digits after it, plus the value of
      those digits; a lone digit is its own value. */
  function Conv2Bin(digits: seq<char>): (r: Option<int>)
    ensures r.Some? <==> |digits| > 0 && forall i :: 0 <= i < |digits| ==> IsBinaryDigit(digits[i])
    ensures r.Some? ==> 0 <= r.value < Pow2(|digits|)
  {
    if |digits| == 0 || !IsBinaryDigit(digits[0]) then None
    else if |digits| == 1 then Some(digits[0] as int - '0' as int)
    else
      var rest := Conv2Bin(digits[1..]);
      assert rest.Some? ==> forall i :: 0 <= i < |digits| ==> IsBinaryDigit(digits[i]) by {
        if rest.Some? {
          forall i | 1 <= i < |digits| ensures IsBinaryDigit(digits[i]) {
            assert digits[i] == digits[1..][i - 1];
          }
        }
      }
      assert rest.None? ==> exists i :: 0 <= i < |digits| && !IsBinaryDigit(digits[i]) by {
        if rest.None? {
          var j :| 0 <= j < |digits| - 1 && !IsBinaryDigit(digits[1..][j]);
          assert digits[j + 1] == digits[1..][j];
        }
      }
      if rest.None? then None
      else Some((digits[0] as int - '0' as int) * Pow2(|digits| - 1) + rest.value)
  }

  /** The w binary digits of n, most significant first. */
  function Binary(n: nat, w: nat): (s: seq<char>)
    ensures |s| == w
    decreases w
  {
    if w == 0 then []
    else [if n / Pow2(w - 1) == 0 then '0' else '1'] + Binary(n % Pow2(w - 1), w - 1)
  }

  /** Writing a value below 2^w in w binary digits and reading the digits
      back with conv2bin gives the value. */
  lemma {:induction false} ReadWritten(n: nat, w: nat)
    requires w >= 1 && n < Pow2(w)
    ensures Conv2Bin(Binary(n, w)) == Some(n)
    decreases w
  {
    var p := Pow2(w - 1);
    HighDigit(n, p);
    var s := Binary(n, w);
    var low := if n < p then n else n - p;
    assert s == [if n < p then '0' else '1'] + Binary(low, w - 1);
    assert s[1..] == Binary(low, w - 1);
    if w > 1 {
      ReadWritten(low, w - 1);
      assert n == (if n < p then 0 else 1) * p + low;
    }
  }

  /** The high digit of a value below 2p and what is left after it. */
  lemma HighDigit(n: nat, p: nat)
    requires p >= 1 && n < 2 * p
    ensures n / p == (if n < p then 0 else 1)
    ensures n % p == (if n < p then n else n - p)
  {
    if n < p {
      DivModUnique(n, p, 0, n);
    } else {
      DivModUnique(n, p, 1, n - p);
    }
  }

  /** Reading a literal's digits with conv2bin and writing the value back in
      as many binary digits gives the digits: the value loses nothing, and
      leading zeros are all that distinguishes packs of one value. */
  lemma {:induction false} WrittenRead(digits: seq<char>)
    requires Conv2Bin(digits).Some?
    ensures Binary(Conv2Bin(digits).value, |digits|) == digits
  {
    var w := |digits|;
    var p := Pow2(w - 1);
    var h := digits[0] as int - '0' as int;
    var v := Conv2Bin(digits).value;
    if w == 1 {
      assert p == 1;
    } else {
      var rest := Conv2Bin(digits[1..]).value;
      assert v == h * p + rest;
      DivModUnique(v, p, h, rest);
      WrittenRead(digits[1..]);
      assert Binary(v, w) == [digits[0]] + digits[1..];
    }
  }

  /** conv2bin on a few packs: a lone digit is digit - '0', and a digit
      outside 0 and 1 or an empty pack does not compile. */
  lemma Examples()
    ensures Conv2Bin("1") == Some(1) && Conv2Bin("0") == Some(0)
    ensures Conv2Bin("101") == Some(5)
    ensures Conv2Bin("12") == None && Conv2Bin("") == None
  {
    assert "101"[1..] == "01" && "01"[1..] == "1";
    assert "12"[1..] == "2";
  }
}
