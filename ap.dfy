/** The access-point side of WiFiPicker: how `init` normalises the AP
    configuration, the `softAP` call `createAP` chooses, and the captive
    portal's redirect decision. */
module Ap {

  /** `ESP.getChipId()` returns a `uint32_t`. */
  type ChipId = n: nat | n < 0x1_0000_0000

  /** The passphrase put in place of one that is too short. */
  const Placeholder: string := "8characters"

  function DigitChar(d: nat): (c: char)
    requires d < 10
    ensures '0' <= c <= '9' && c as int - '0' as int == d
  {
    (d + '0' as int) as char
  }

  function DigitValue(c: char): nat
  {
    if '0' <= c <= '9' then c as int - '0' as int else 0
  }

  /** The number a string of decimal digits denotes. */
  function DecimalValue(s: string): nat
  {
    if s == [] then 0 else DecimalValue(s[..|s| - 1]) * 10 + DigitValue(s[|s| - 1])
  }

  /** `String(n)` for an unsigned integer: its decimal digits, without
      leading zeros. */
  function Decimal(n: nat): (r: string)
    ensures |r| >= 1 && forall i :: 0 <= i < |r| ==> '0' <= r[i] <= '9'
    ensures r[0] == '0' ==> r == "0"
    ensures DecimalValue(r) == n
  {
    if n < 10 then [DigitChar(n)]
    else
      var r := Decimal(n / 10) + [DigitChar(n % 10)];
      assert r[..|r| - 1] == Decimal(n / 10);
      r
  }

  /** The number of bytes one character takes in UTF-8. */
  function Utf8Width(c: char): (n: nat)
    ensures 1 <= n <= 4
    ensures n == 1 <==> c as int < 0x80
  {
    if c as int < 0x80 then 1
    else if c as int < 0x800 then 2
    else if c as int < 0x1_0000 then 3
    else 4
  }

  /** `String::length()`: the number of bytes of the string's UTF-8
      encoding, one to four per character. */
  function Utf8Length(s: string): (n: nat)
    ensures |s| <= n <= 4 * |s|
  {
    if s == [] then 0 else Utf8Width(s[0]) + Utf8Length(s[1..])
  }

  /** The byte length is the number of characters exactly when every
      character is ASCII. */
  lemma {:induction false} Utf8LengthAscii(s: string)
    ensures Utf8Length(s) == |s| <==> forall i :: 0 <= i < |s| ==> s[i] as int < 0x80
  {
    if s != [] {
      assert forall i :: 1 <= i < |s| ==> s[i] == s[1..][i - 1];
      Utf8LengthAscii(s[1..]);
    }
  }

  /** The passphrase `init` keeps: a non-empty one shorter than 8 bytes is
      replaced by the placeholder; any other is kept verbatim. */
  function ApPass(pass: string): (r: string)
    ensures r == "" || Utf8Length(r) >= 8
    ensures pass == "" || Utf8Length(pass) >= 8 ==> r == pass
    ensures r != pass ==> r == Placeholder
  {
    if pass != "" && Utf8Length(pass) < 8 then Placeholder else pass
  }

  /** Characters outside ASCII take at least two bytes each. */
  lemma {:induction false} Utf8LengthWide(s: string)
    requires forall i :: 0 <= i < |s| ==> s[i] as int >= 0x80
    ensures Utf8Length(s) >= 2 * |s|
  {
    if s != [] {
      assert forall i :: 0 <= i < |s| - 1 ==> s[1..][i] == s[i + 1];
      Utf8LengthWide(s[1..]);
    }
  }

  /** The length test counts bytes: four non-ASCII characters, such as
      "\U{e9}\U{e9}\U{e9}\U{e9}", make an acceptable passphrase, although
      they are only four characters. */
  lemma ApPassCountsBytes(pass: string)
    requires |pass| == 4 && forall i :: 0 <= i < 4 ==> pass[i] as int >= 0x80
    ensures ApPass(pass) == pass
  {
    Utf8LengthWide(pass);
  }

  /** The SSID `init` keeps: the given one, or "ESP" followed by the chip id
      in decimal when none is given. */
  function ApSsid(ssid: string, chipId: ChipId): (r: string)
    ensures r != ""
    ensures ssid != "" ==> r == ssid
    ensures ssid == "" ==> r == "ESP" + Decimal(chipId)
    ensures ssid == "" ==> |r| > 3 && r[..3] == "ESP" && DecimalValue(r[3..]) == chipId
    ensures ssid == "" ==> forall i :: 3 <= i < |r| ==> '0' <= r[i] <= '9'
  {
    if ssid != "" then ssid
    else
      var r := "ESP" + Decimal(chipId);
      assert r[3..] == Decimal(chipId);
      r
  }

  /** The arguments of the `WiFi.softAP` call that starts the portal. */
  datatype SoftAp = SoftAp(ssid: string, pass: string, channel: nat, hidden: bool)

  /** `createAP` starts an open AP with the library defaults (channel 1, not
      hidden) when there is no passphrase, and otherwise a protected one on
      channel 1 that honours the hidden flag. */
  function ApSetup(ssid: string, pass: string, hidden: bool): (r: SoftAp)
    ensures r.ssid == ssid && r.pass == pass && r.channel == 1
    ensures r.hidden <==> hidden && pass != ""
  {
    if pass == "" then SoftAp(ssid, "", 1, false) else SoftAp(ssid, pass, 1, hidden)
  }

  /** What the portal's root handler sends. */
  datatype Reply = Redirect(status: nat, location: string) | Page

  /** `redirectoToIp`: a request whose Host header is not the AP's own
      address is answered with a 302 to that address. */
  function RootReply(hostHeader: string, apIp: string): (r: Reply)
    ensures r.Redirect? <==> hostHeader != apIp
    ensures r.Redirect? ==> r.status == 302 && r.location == "http://" + apIp
  {
    if hostHeader == apIp then Page else Redirect(302, "http://" + apIp)
  }
}
