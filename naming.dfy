/**
 * The display names of TYME devices. The service derives the name from the
 * advertisement's address printed as twelve hexadecimal digits; the scan
 * window derives it from the low 16 bits of the address. Both give
 * `TYME-` and the last four hexadecimal digits of the address.
 */
module DeviceNames {
  import opened Bytes
  import opened Text

  /** `address.ToString("X").PadLeft(12, '0')`: the address text a device row stores. */
  function AddressText(address: U64): (hex: string)
    ensures |hex| >= 12
  {
    PadLeft(HexString(address), 12, '0')
  }

  /** The name `OnAdvertisementReceived` gives: `TYME-` and the last four characters of the address text. */
  function AdvertName(address: U64): (name: string)
  {
    var hex := AddressText(address);
    "TYME-" + hex[|hex| - 4..]
  }

  /** The scan window's `TymeName`: `TYME-` and `address & 0xFFFF` in the `"X4"` format. */
  function TymeName(address: U64): (name: string)
  {
    "TYME-" + PadLeft(HexString(address % 0x1_0000), 4, '0')
  }

  /** The service's name is `TYME-` and four hexadecimal digits of the address's low 16 bits. */
  lemma AdvertNameLowBits(address: U64)
    ensures AdvertName(address) == "TYME-" + HexDigitsR(address % 0x1_0000, 4)
  {
    AddressTextDigits(address);
    LastFourDigits(address);
  }

  lemma AddressTextDigits(address: U64)
    ensures AddressText(address) == HexDigitsR(address, 12)
  {
    PadLeftHex(address, 12);
  }

  lemma LastFourDigits(address: U64)
    ensures var hex := HexDigitsR(address, 12);
      |hex| >= 4 && hex[|hex| - 4..] == HexDigitsR(address % 0x1_0000, 4)
  {
    HexLowDigits(address, 12, 4);
    Pow16Four();
  }

  /** The scan window's name is the same four digits. */
  lemma TymeNameLowBits(address: U64)
    ensures TymeName(address) == "TYME-" + HexDigitsR(address % 0x1_0000, 4)
  {
    PadLeftHex(address % 0x1_0000, 4);
  }

  /** Both windows show a device under the same name. */
  lemma NamesAgree(address: U64)
    ensures AdvertName(address) == TymeName(address)
  {
    AdvertNameLowBits(address);
    TymeNameLowBits(address);
  }

  /**
   * The name is nine characters, and two devices share a name exactly when
   * their addresses agree on the low 16 bits.
   */
  lemma TymeNameShared(a: U64, b: U64)
    ensures |TymeName(a)| == 9
    ensures TymeName(a) == TymeName(b) <==> a % 0x1_0000 == b % 0x1_0000
  {
    TymeNameLowBits(a);
    TymeNameLowBits(b);
    Pow16Four();
    HexDigitsRLength(a % 0x1_0000, 4);
    HexDigitsRInjective(a % 0x1_0000, b % 0x1_0000, 4);
    var x, y := HexDigitsR(a % 0x1_0000, 4), HexDigitsR(b % 0x1_0000, 4);
    assert TymeName(a) == TymeName(b) ==> x == y by {
      if TymeName(a) == TymeName(b) {
        assert x == TymeName(a)[5..] && y == TymeName(b)[5..];
      }
    }
  }
}
