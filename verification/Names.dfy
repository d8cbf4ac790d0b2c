/**
 The text formats of the client registry: hardware addresses and client
 identifiers, as in server/state_ops.go.
 */
module Names {

  // ---- Hardware addresses -------------------------------------------------

  function ToLower(c: char): char {
    if 'A' <= c <= 'Z' then c + 32 as char else c
  }

  predicate IsHex(c: char) {
    '0' <= c <= '9' || 'a' <= c <= 'f'
  }

  // The hexadecimal digits of a text, in lower case
  function HexDigits(s: string): (h: string)
    ensures forall i :: 0 <= i < |h| ==> IsHex(h[i])
  {
    if s == [] then []
    else
      var c := ToLower(s[|s| - 1]);
      HexDigits(s[..|s| - 1]) + (if IsHex(c) then [c] else [])
  }

  // normalizeMAC()
  function Normal(mac: string): (r: string)
    ensures r == "" || (|r| == 12 && forall i :: 0 <= i < 12 ==> IsHex(r[i]))
  {
    if |HexDigits(mac)| == 12 then HexDigits(mac) else ""
  }

  method Normalize(mac: string) returns (r: string)
    ensures r == Normal(mac)
  {
    var out := "";
    for i := 0 to |mac|
      invariant out == HexDigits(mac[..i])
    {
      var c := ToLower(mac[i]);
      if IsHex(c) {
        out := out + [c];
      }
      assert mac[..i + 1][..i] == mac[..i];
    }
    assert mac[..|mac|] == mac;
    return if |out| == 12 then out else "";
  }

  lemma {:induction false} HexOnly(s: string)
    requires forall i :: 0 <= i < |s| ==> IsHex(s[i])
    ensures HexDigits(s) == s
  {
    if s != [] {
      HexOnly(s[..|s| - 1]);
      assert IsHex(s[|s| - 1]);
      assert s == s[..|s| - 1] + [s[|s| - 1]];
    }
  }

  // Normalising twice changes nothing.
  lemma NormalTwice(mac: string)
    ensures Normal(Normal(mac)) == Normal(mac)
  {
    HexOnly(Normal(mac));
  }

  // ---- Client identifiers -------------------------------------------------

  function Digit(d: int): char
    requires 0 <= d < 10
  {
    '0' + d as char
  }

  function Decimal(n: nat): (s: string)
    ensures s != []
  {
    if n < 10 then [Digit(n)] else Decimal(n / 10) + [Digit(n % 10)]
  }

  function Padded(s: string): (r: string)
    ensures |r| >= 4 && |r| >= |s|
    decreases 4 - |s|
  {
    if |s| >= 4 then s else Padded(['0'] + s)
  }

  // fmt.Sprintf ( "client-%04d", n )
  function ClientId(n: nat): string {
    "client-" + Padded(Decimal(n))
  }

  predicate IsDigit(c: char) {
    '0' <= c <= '9'
  }

  function Number(s: string): nat
    requires forall i :: 0 <= i < |s| ==> IsDigit(s[i])
  {
    if s == [] then 0
    else
      assert IsDigit(s[|s| - 1]);
      10 * Number(s[..|s| - 1]) + (s[|s| - 1] as int - '0' as int)
  }

  // strconv.Atoi(), or 0 for an error; a leading '-' cannot occur here.
  function Atoi(s: string): nat {
    var t := if s != [] && s[0] == '+' then s[1..] else s;
    if t != [] && forall i :: 0 <= i < |t| ==> IsDigit(t[i]) then Number(t) else 0
  }

  function LastDash(s: string): (i: int)
    ensures -1 <= i < |s| && (i >= 0 ==> s[i] == '-') && forall j :: i < j < |s| ==> s[j] != '-'
  {
    if s == [] then -1
    else if s[|s| - 1] == '-' then |s| - 1
    else LastDash(s[..|s| - 1])
  }

  // idSeq()
  function IdSeq(id: string): nat {
    var i := LastDash(id);
    if i < 0 || i == |id| - 1 then 0 else Atoi(id[i + 1..])
  }

  ghost predicate Digits(s: string) {
    forall i :: 0 <= i < |s| ==> IsDigit(s[i])
  }

  lemma {:induction false} DecimalNumber(n: nat)
    ensures Digits(Decimal(n)) && Number(Decimal(n)) == n
  {
    if n < 10 {
      assert Decimal(n)[..0] == [];
    } else {
      DecimalNumber(n / 10);
      var s := Decimal(n);
      assert s[..|s| - 1] == Decimal(n / 10);
    }
  }

  lemma {:induction false} ZeroFirst(s: string)
    requires Digits(s)
    ensures Digits(['0'] + s) && Number(['0'] + s) == Number(s)
  {
    var t := ['0'] + s;
    if s == [] {
      assert t[..0] == [];
    } else {
      ZeroFirst(s[..|s| - 1]);
      assert t[..|t| - 1] == ['0'] + s[..|s| - 1];
    }
  }

  lemma {:induction false} PaddedNumber(s: string)
    requires Digits(s)
    ensures Digits(Padded(s)) && Number(Padded(s)) == Number(s)
    decreases 4 - |s|
  {
    if |s| < 4 {
      ZeroFirst(s);
      PaddedNumber(['0'] + s);
    }
  }

  // idSeq() undoes the format of an identifier.
  lemma IdSeqOfClientId(n: nat)
    ensures IdSeq(ClientId(n)) == n
  {
    hide Number, Decimal, Padded, LastDash;
    DecimalNumber(n);
    PaddedNumber(Decimal(n));
    var digits, id := Padded(Decimal(n)), ClientId(n);
    assert id[6] == '-' && id[7..] == digits;
    assert forall j :: 7 <= j < |id| ==> id[j] == digits[j - 7];
    assert LastDash(id) == 6;
    assert digits[0] != '+';
  }

  // "client-" and at least four digits
  lemma FirstIds()
    ensures ClientId(1) == "client-0001" && ClientId(12345) == "client-12345"
  {
    assert Decimal(1) == "1";
    assert ['0'] + "1" == "01" && ['0'] + "01" == "001" && ['0'] + "001" == "0001";
    assert Padded("0001") == "0001";
    assert Padded("001") == Padded("0001");
    assert Padded("01") == Padded("001");
    assert Padded("1") == Padded("01");
    assert Decimal(123) == Decimal(12) + ['3'] == "123";
    assert Decimal(12345) == Decimal(1234) + ['5'] == Decimal(123) + ['4'] + ['5'];
  }

  lemma {:induction false} HexConcat(a: string, b: string)
    ensures HexDigits(a + b) == HexDigits(a) + HexDigits(b)
    decreases |b|
  {
    if b == [] {
      assert a + b == a;
    } else {
      HexConcat(a, b[..|b| - 1]);
      assert (a + b)[..|a + b| - 1] == a + b[..|b| - 1];
    }
  }

  // Digits are kept, letters from a to f in either case made small, and all else
  // left out.
  lemma HexOne(c: char)
    ensures HexDigits([c]) ==
            if '0' <= c <= '9' || 'a' <= c <= 'f' then [c]
            else if 'A' <= c <= 'F' then ["abcdef"[c as int - 'A' as int]]
            else []
  {
    assert [c][..0] == [];
  }

  // An address is normalised byte by byte, whatever separates the bytes.
  lemma NormalPairs(s: seq<string>)
    requires |s| == 6 && forall i :: 0 <= i < 6 ==> |HexDigits(s[i])| == 2
    ensures Normal(s[0] + s[1] + s[2] + s[3] + s[4] + s[5]) ==
            HexDigits(s[0]) + HexDigits(s[1]) + HexDigits(s[2]) + HexDigits(s[3]) + HexDigits(s[4]) + HexDigits(s[5])
  {
    hide HexDigits;
    HexConcat(s[0], s[1]);
    HexConcat(s[0] + s[1], s[2]);
    HexConcat(s[0] + s[1] + s[2], s[3]);
    HexConcat(s[0] + s[1] + s[2] + s[3], s[4]);
    HexConcat(s[0] + s[1] + s[2] + s[3] + s[4], s[5]);
  }
}
