/** utils/biometric.ts: the PIN hash and the per-user record kept in device storage.

    The record of user `nic` lives under the key `biometric_<nic>` in the platform's
    store (`localStorage` on the web, the secure store on a device); `PinStore` models
    that store as a map from key to the parsed record. */
module Biometric {
  import opened Text
  import opened Wrappers
  import BlindRsa

  // ----- 32-bit integers as JavaScript's bitwise operators see them -----

  const TwoTo31: int := 0x8000_0000
  const TwoTo32: int := 0x1_0000_0000

  predicate IsInt32(x: int)
  {
    -TwoTo31 <= x < TwoTo31
  }

  /** ECMAScript ToInt32 on an integral number: the value modulo 2^32, read as a
      signed 32-bit integer. */
  function ToInt32(x: int): (r: int)
    ensures IsInt32(r)
    ensures (x - r) % TwoTo32 == 0
    ensures IsInt32(x) ==> r == x
  {
    var m := x % TwoTo32;
    if m >= TwoTo31 then m - TwoTo32 else m
  }

  /** Numbers that agree modulo 2^32 have the same ToInt32. */
  lemma ToInt32Congruent(x: int, y: int)
    requires (x - y) % TwoTo32 == 0
    ensures ToInt32(x) == ToInt32(y)
  {
    var k := (x - y) / TwoTo32;
    assert x == y + k * TwoTo32;
    assert x % TwoTo32 == y % TwoTo32 by {
      ShiftMod(y, k);
    }
  }

  lemma ShiftMod(y: int, k: int)
    ensures (y + k * TwoTo32) % TwoTo32 == y % TwoTo32
  {
  }

  /** One round of the loop of `simpleHash` as written: `(hash << 5) - hash + char`
      (the shift reads `hash` as a 32-bit integer and wraps), then `hash & hash`. */
  function StepAsWritten(h: int, c: int): int
  {
    ToInt32(ToInt32(ToInt32(h) * 32) - h + c)
  }

  /** On a 32-bit `hash` the round is `hash * 31 + char`, wrapped to 32 bits. */
  lemma StepIsTimes31(h: int, c: int)
    requires IsInt32(h)
    ensures StepAsWritten(h, c) == ToInt32(31 * h + c)
  {
    var s := ToInt32(h * 32);
    assert (h * 32 - s) % TwoTo32 == 0;
    assert (s - h + c) - (31 * h + c) == -(h * 32 - s);
    ToInt32Congruent(s - h + c, 31 * h + c);
  }

  /** The hash of a sequence of UTF-16 code units: 0 for none, and each unit `c`
      takes `h` to `31 * h + c` modulo 2^32 (the Java `String.hashCode` recurrence). */
  function HashValue(units: seq<int>): (h: int)
    ensures IsInt32(h)
  {
    if units == [] then 0
    else ToInt32(31 * HashValue(units[..|units| - 1]) + units[|units| - 1])
  }

  /** Non-negative integers in base 16 with lowercase digits and no leading zeros,
      as `Number.prototype.toString(16)` writes them. */
  function HexOfNat(n: nat): (s: string)
    ensures |s| >= 1
    ensures BlindRsa.IsHexString(s) && BlindRsa.IsLowerHexString(s)
    ensures |s| > 1 ==> s[0] != '0'
    ensures n < 16 <==> |s| == 1
    decreases n
  {
    if n < 16 then [BlindRsa.LowerDigit(n)]
    else HexOfNat(n / 16) + [BlindRsa.LowerDigit(n % 16)]
  }

  /** Reading back the digits gives the number. */
  lemma {:induction false} HexOfNatValue(n: nat)
    ensures BlindRsa.HexValue(HexOfNat(n)) == n
    decreases n
  {
    var s := HexOfNat(n);
    if n >= 16 {
      HexOfNatValue(n / 16);
      assert s[..|s| - 1] == HexOfNat(n / 16);
    }
  }

  /** Numbers below 16^k take at most k digits (and zero takes one). */
  lemma {:induction false} HexOfNatLength(n: nat, k: nat)
    requires k >= 1 && n < BlindRsa.Pow16(k)
    ensures |HexOfNat(n)| <= k
    decreases n
  {
    assert BlindRsa.Pow16(1) == 16;
    if n >= 16 {
      assert k >= 2;
      HexOfNatLength(n / 16, k - 1);
    }
  }

  function Abs(x: int): nat
  {
    if x < 0 then -x else x
  }

  /** What `simpleHash(input)` returns: the hex digits of the absolute value of the
      32-bit hash of the code units of `input`. */
  function SimpleHashOf(input: string): (h: string)
    ensures |h| >= 1 && BlindRsa.IsLowerHexString(h)
  {
    HexOfNat(Abs(HashValue(Utf16(input))))
  }

  /** The result is between one and eight lowercase hex digits without leading
      zeros, and it reads back as the absolute hash, which is at most 2^31. */
  lemma SimpleHashShape(input: string)
    ensures 1 <= |SimpleHashOf(input)| <= 8
    ensures BlindRsa.IsHexString(SimpleHashOf(input)) && BlindRsa.IsLowerHexString(SimpleHashOf(input))
    ensures forall i | 0 <= i < |SimpleHashOf(input)| :: SimpleHashOf(input)[i] != 'x'
    ensures |SimpleHashOf(input)| > 1 ==> SimpleHashOf(input)[0] != '0'
    ensures BlindRsa.HexValue(SimpleHashOf(input)) == Abs(HashValue(Utf16(input))) <= TwoTo31
  {
    var n := Abs(HashValue(Utf16(input)));
    assert BlindRsa.Pow16(8) == TwoTo32;
    HexOfNatLength(n, 8);
    HexOfNatValue(n);
    NoX(HexOfNat(n));
  }

  lemma NoX(s: string)
    requires BlindRsa.IsHexString(s)
    ensures forall i | 0 <= i < |s| :: s[i] != 'x'
  {
    forall i | 0 <= i < |s|
      ensures s[i] != 'x'
    {
      assert BlindRsa.IsHexDigit(s[i]);
    }
  }

  /** `Math.abs` cannot tell a hash from its negation, so inputs whose hashes are
      opposite get the same PIN hash. */
  lemma SignIsLost(a: string, b: string)
    requires HashValue(Utf16(a)) == -HashValue(Utf16(b))
    ensures SimpleHashOf(a) == SimpleHashOf(b)
  {
  }

  /** The one 32-bit hash whose absolute value is not a 32-bit value, -2^31, is
      rendered with eight digits. */
  lemma MinInt32Rendering()
    ensures IsInt32(-TwoTo31) && HexOfNat(Abs(-TwoTo31)) == "80000000"
  {
    assert HexOfNat(8) == "8";
    assert HexOfNat(0x80) == "80";
    assert HexOfNat(0x800) == "800";
    assert HexOfNat(0x8000) == "8000";
    assert HexOfNat(0x8_0000) == "80000";
    assert HexOfNat(0x80_0000) == "800000";
    assert HexOfNat(0x800_0000) == "8000000";
  }

  /** The empty input hashes to "0". */
  lemma EmptyHash()
    ensures SimpleHashOf("") == "0"
  {
    assert Utf16("") == [];
  }

  /** utils/biometric.ts:14-22. The loop visits the code units of `input` in order and
      performs each round as the source writes it. */
  method SimpleHash(input: string) returns (r: string)
    ensures r == SimpleHashOf(input)
  {
    var units := Utf16(input);
    var hash := 0;
    for i := 0 to |units|
      invariant IsInt32(hash)
      invariant hash == HashValue(units[..i])
    {
      var c := units[i];
      StepIsTimes31(hash, c);
      hash := ToInt32(ToInt32(hash) * 32) - hash + c;
      hash := ToInt32(hash);
      assert units[..i + 1][..i] == units[..i];
    }
    assert units[..|units|] == units;
    r := HexOfNat(Abs(hash));
  }

  /** utils/biometric.ts:27-29. */
  method HashPin(pin: string, salt: string) returns (r: string)
    ensures r == SimpleHashOf(pin + salt)
  {
    r := SimpleHash(pin + salt);
  }

  // ----- the stored record -----

  datatype BiometricData = BiometricData(
    pinHash: string,
    pinSalt: string,
    biometricEnabled: bool,
    createdAt: int)

  /** `biometric_${userNIC}`. */
  function KeyName(nic: string): (k: string)
    ensures StartsWith(k, "biometric_") && k[10..] == nic
  {
    "biometric_" + nic
  }

  /** Distinct users have distinct keys. */
  lemma KeyNameInjective(a: string, b: string)
    requires KeyName(a) == KeyName(b)
    ensures a == b
  {
    assert a == KeyName(a)[10..];
    assert b == KeyName(b)[10..];
  }

  /** The record `storePIN` writes for a PIN, a salt and a time. */
  function PinRecord(pin: string, salt: string, createdAt: int): BiometricData
  {
    BiometricData(SimpleHashOf(pin + salt), salt, false, createdAt)
  }

  /** What `verifyPIN` answers for a store: there is a record for the user and the
      PIN hashed with its salt is its hash. */
  predicate PinMatches(records: map<string, BiometricData>, nic: string, pin: string)
  {
    KeyName(nic) in records
    && SimpleHashOf(pin + records[KeyName(nic)].pinSalt) == records[KeyName(nic)].pinHash
  }

  /** The store after `enableBiometric` on a record that exists. */
  function WithBiometric(records: map<string, BiometricData>, key: string): map<string, BiometricData>
    requires key in records
  {
    records[key := records[key].(biometricEnabled := true)]
  }

  datatype EnableError = NotAvailableOnWeb | DataNotFound

  /** A PIN just stored verifies, whatever the salt and time. */
  lemma StoreThenVerify(records: map<string, BiometricData>, nic: string, pin: string, salt: string, now: int)
    ensures PinMatches(records[KeyName(nic) := PinRecord(pin, salt, now)], nic, pin)
  {
  }

  /** Storing a PIN for one user does not change what any other user's PIN check answers. */
  lemma StoreKeepsOthers(records: map<string, BiometricData>, nic: string, pin: string, salt: string, now: int,
                         other: string, otherPin: string)
    requires other != nic
    ensures PinMatches(records[KeyName(nic) := PinRecord(pin, salt, now)], other, otherPin)
        == PinMatches(records, other, otherPin)
  {
    if KeyName(other) == KeyName(nic) {
      KeyNameInjective(other, nic);
    }
  }

  /** Enabling biometrics leaves every PIN check as it was. */
  lemma EnableKeepsPins(records: map<string, BiometricData>, nic: string, who: string, pin: string)
    requires KeyName(nic) in records
    ensures PinMatches(WithBiometric(records, KeyName(nic)), who, pin) == PinMatches(records, who, pin)
  {
  }

  /** A PIN that differs from the stored one verifies exactly when its salted hash
      collides with the stored hash; the check compares hashes, not PINs. */
  lemma VerifyComparesHashes(pin: string, other: string, salt: string, now: int, records: map<string, BiometricData>, nic: string)
    ensures PinMatches(records[KeyName(nic) := PinRecord(pin, salt, now)], nic, other)
        <==> SimpleHashOf(other + salt) == SimpleHashOf(pin + salt)
  {
  }

  /** The platform store of one device, holding the parsed records by key. */
  class PinStore {
    const isWeb: bool
    var records: map<string, BiometricData>

    constructor (isWeb: bool, records: map<string, BiometricData>)
      ensures this.isWeb == isWeb && this.records == records
    {
      this.isWeb := isWeb;
      this.records := records;
    }

    /** utils/biometric.ts:41-62. The salt and the time come from `generateSalt` and
        `Date.now()`; they are parameters here. The record replaces any earlier one
        and has biometrics off. */
    method StorePin(nic: string, pin: string, salt: string, now: int)
      modifies this
      ensures records == old(records)[KeyName(nic) := PinRecord(pin, salt, now)]
    {
      var pinHash := HashPin(pin, salt);
      var data := BiometricData(pinHash, salt, false, now);
      records := records[KeyName(nic) := data];
    }

    /** utils/biometric.ts:67-91. No record means `false`. */
    method VerifyPin(nic: string, pin: string) returns (ok: bool)
      ensures ok == PinMatches(records, nic, pin)
    {
      var key := KeyName(nic);
      if key !in records {
        return false;
      }
      var data := records[key];
      var pinHash := HashPin(pin, data.pinSalt);
      ok := pinHash == data.pinHash;
    }

    /** utils/biometric.ts:116-139. Fails on the web and when the user has no
        record; otherwise sets the record's `biometricEnabled` and changes nothing else. */
    method EnableBiometric(nic: string) returns (r: Outcome<EnableError>)
      modifies this
      ensures isWeb ==> r == Fail(NotAvailableOnWeb) && records == old(records)
      ensures !isWeb && KeyName(nic) !in old(records) ==> r == Fail(DataNotFound) && records == old(records)
      ensures !isWeb && KeyName(nic) in old(records) ==> r == Pass && records == WithBiometric(old(records), KeyName(nic))
    {
      if isWeb {
        return Fail(NotAvailableOnWeb);
      }
      var key := KeyName(nic);
      if key !in records {
        return Fail(DataNotFound);
      }
      var data := records[key];
      data := data.(biometricEnabled := true);
      records := records[key := data];
      r := Pass;
    }

    /** utils/biometric.ts:166-187. The stored record, or `null` when there is none. */
    method GetBiometricStatus(nic: string) returns (r: Option<BiometricData>)
      ensures KeyName(nic) in records ==> r == Some(records[KeyName(nic)])
      ensures KeyName(nic) !in records ==> r == None
    {
      var key := KeyName(nic);
      if key in records {
        r := Some(records[key]);
      } else {
        r := None;
      }
    }
  }

  /** Storing a PIN and then checking it answers `true`, and enabling biometrics
      afterwards (on a device) keeps it so. */
  method EnrolThenVerify(store: PinStore, nic: string, pin: string, salt: string, now: int)
    returns (first: bool, second: bool)
    modifies store
    ensures first && second
    ensures !store.isWeb ==> KeyName(nic) in store.records && store.records[KeyName(nic)].biometricEnabled
  {
    store.StorePin(nic, pin, salt, now);
    first := store.VerifyPin(nic, pin);
    var enabled := store.EnableBiometric(nic);
    EnableKeepsPins(old(store.records)[KeyName(nic) := PinRecord(pin, salt, now)], nic, nic, pin);
    second := store.VerifyPin(nic, pin);
  }
}
