/**
 * The Amiplus wM-Bus energy-meter decoder: scanners that look for register
 * codes in a decrypted telegram and the assembler that collects up to ten
 * named readings.
 *
 * A reading is kept as the raw integer produced by the BCD decoder together
 * with the divisor the driver applies to it (the physical value is
 * raw / divisor).  The BCD decoder itself belongs to the host driver and is
 * a parameter of every operation.
 */
module Amiplus {

  import opened Wrappers

  newtype byte = b: int | 0 <= b < 256

  /** Every scanner starts at this offset: the telegram header is skipped. */
  const Header: nat := 11

  /** The host driver's `bcd_2_int`, applied to the payload bytes it reads. */
  type Decoder = seq<byte> -> nat

  /** A decoded value: `raw / divisor` in the field's physical unit. */
  datatype Reading = Reading(raw: nat, divisor: nat)

  // ---------------------------------------------------------------------------
  // Register codes and the code window
  // ---------------------------------------------------------------------------

  function Pow256(w: nat): (p: nat)
    ensures p >= 1
  {
    if w == 0 then 1 else 256 * Pow256(w - 1)
  }

  /** Big-endian value of a byte run: what the scanners build with shifts and ORs. */
  function BigEndian(s: seq<byte>): (v: nat)
    ensures v < Pow256(|s|)
  {
    if |s| == 0 then 0 else BigEndian(s[..|s| - 1]) * 256 + s[|s| - 1] as nat
  }

  /** The 2-byte window as the scanners compute it: `(t[i] << 8) | t[i+1]` in uint32. */
  lemma ShiftOr2(b0: bv8, b1: bv8)
    ensures ((b0 as bv32 << 8) | b1 as bv32) as nat == BigEndian([b0 as byte, b1 as byte])
  {
    BigEndian2(b0 as byte, b1 as byte);
    ShiftOr2Value(b0, b1);
  }

  /** The 3-byte window: `(t[i] << 16) | (t[i+1] << 8) | t[i+2]` in uint32. */
  lemma ShiftOr3(b0: bv8, b1: bv8, b2: bv8)
    ensures ((b0 as bv32 << 16) | (b1 as bv32 << 8) | b2 as bv32) as nat
            == BigEndian([b0 as byte, b1 as byte, b2 as byte])
  {
    BigEndian3(b0 as byte, b1 as byte, b2 as byte);
    ShiftOr3Value(b0, b1, b2);
  }

  /** The 4-byte window: `(t[i] << 24) | (t[i+1] << 16) | (t[i+2] << 8) | t[i+3]` in uint32. */
  lemma ShiftOr4(b0: bv8, b1: bv8, b2: bv8, b3: bv8)
    ensures ((b0 as bv32 << 24) | (b1 as bv32 << 16) | (b2 as bv32 << 8) | b3 as bv32) as nat
            == BigEndian([b0 as byte, b1 as byte, b2 as byte, b3 as byte])
  {
    BigEndian4(b0 as byte, b1 as byte, b2 as byte, b3 as byte);
    ShiftOr4Value(b0, b1, b2, b3);
  }

  lemma ShiftOr2Value(b0: bv8, b1: bv8)
    ensures ((b0 as bv32 << 8) | b1 as bv32) as int == b0 as int * 0x100 + b1 as int
  {
  }

  lemma ShiftOr3Value(b0: bv8, b1: bv8, b2: bv8)
    ensures ((b0 as bv32 << 16) | (b1 as bv32 << 8) | b2 as bv32) as int
            == b0 as int * 0x1_0000 + b1 as int * 0x100 + b2 as int
  {
  }

  lemma ShiftOr4Value(b0: bv8, b1: bv8, b2: bv8, b3: bv8)
    ensures ((b0 as bv32 << 24) | (b1 as bv32 << 16) | (b2 as bv32 << 8) | b3 as bv32) as int
            == b0 as int * 0x100_0000 + b1 as int * 0x1_0000 + b2 as int * 0x100 + b3 as int
  {
  }

  lemma BigEndian2(b0: byte, b1: byte)
    ensures BigEndian([b0, b1]) == b0 as int * 0x100 + b1 as int
  {
    assert [b0, b1][..1] == [b0];
    assert [b0][..0] == [];
  }

  lemma BigEndian3(b0: byte, b1: byte, b2: byte)
    ensures BigEndian([b0, b1, b2]) == b0 as int * 0x1_0000 + b1 as int * 0x100 + b2 as int
  {
    assert [b0, b1, b2][..2] == [b0, b1];
    BigEndian2(b0, b1);
  }

  lemma BigEndian4(b0: byte, b1: byte, b2: byte, b3: byte)
    ensures BigEndian([b0, b1, b2, b3])
            == b0 as int * 0x100_0000 + b1 as int * 0x1_0000 + b2 as int * 0x100 + b3 as int
  {
    assert [b0, b1, b2, b3][..3] == [b0, b1, b2];
    BigEndian3(b0, b1, b2);
  }

  /** The `w` bytes of `k`, most significant first. */
  function BytesOf(k: nat, w: nat): (s: seq<byte>)
    ensures |s| == w
  {
    if w == 0 then [] else BytesOf(k / 256, w - 1) + [(k % 256) as byte]
  }

  lemma {:induction false} BigEndianOfBytes(k: nat, w: nat)
    requires k < Pow256(w)
    ensures BigEndian(BytesOf(k, w)) == k
  {
    if w > 0 {
      BigEndianOfBytes(k / 256, w - 1);
      var s := BytesOf(k, w);
      assert s[..w - 1] == BytesOf(k / 256, w - 1);
    }
  }

  lemma {:induction false} BytesOfBigEndian(s: seq<byte>)
    ensures BytesOf(BigEndian(s), |s|) == s
  {
    if |s| > 0 {
      var p := s[..|s| - 1];
      BytesOfBigEndian(p);
      var v := BigEndian(s);
      assert v / 256 == BigEndian(p) && v % 256 == s[|s| - 1] as int;
    }
  }

  /** The `w`-byte window at `i` fits in the telegram and holds `code`. */
  predicate MatchAt(t: seq<byte>, i: nat, code: nat, w: nat): (b: bool)
    ensures b ==> i + w <= |t| && code < Pow256(w)
  {
    i + w <= |t| && BigEndian(t[i..i + w]) == code
  }

  /** A window equals a code exactly when its bytes are the code's bytes. */
  lemma CodeWindow(t: seq<byte>, i: nat, code: nat, w: nat)
    requires i + w <= |t| && code < Pow256(w)
    ensures MatchAt(t, i, code, w) <==> t[i..i + w] == BytesOf(code, w)
  {
    BigEndianOfBytes(code, w);
    BytesOfBigEndian(t[i..i + w]);
  }

  // ---------------------------------------------------------------------------
  // The register catalog
  // ---------------------------------------------------------------------------

  /**
   * A register looked up by its code alone: the code and its width in bytes,
   * how far the scan index advances on a match before the payload is read,
   * the payload length handed to the BCD decoder, and the scale divisor.
   */
  datatype CodeSpec = CodeSpec(code: nat, width: nat, advance: nat, len: nat, divisor: nat)

  const TotalConsumption := CodeSpec(0x0E03, 2, 2, 6, 1000)
  const CurrentConsumption := CodeSpec(0x0B2B, 2, 2, 3, 1000)
  const TotalProduction := CodeSpec(0x0E833C, 3, 3, 6, 1000)
  const CurrentProduction := CodeSpec(0x0BAB3C, 3, 3, 3, 1000)

  /** The per-tariff consumption code, computed in 32-bit unsigned arithmetic. */
  function TariffCode(tarrif: bv32): (r: bv32)
    ensures r & 0xFFF == 0x003 && r & 0x8E_0000 == 0x8E_0000
    ensures tarrif < 16 ==> r & 0xFF_0FFF == 0x8E_0003 && (r >> 12) & 0xF == tarrif && r < 0x100_0000
  {
    0x8E0000 | (tarrif << 12) | 0x000003
  }

  /** The tariff code is 3 bytes wide but the index advances only 2 bytes. */
  function TariffConsumption(tarrif: bv32): CodeSpec
  {
    CodeSpec(TariffCode(tarrif) as nat, 3, 2, 6, 100000)
  }

  /** The phase-voltage register; a selector byte holding the phase follows it. */
  const VoltageRegister: nat := 0x0AFDC9FC

  lemma TariffCodes()
    ensures TariffCode(1) == 0x8E1003 && TariffCode(2) == 0x8E2003 && TariffCode(3) == 0x8E3003
  {
  }

  /** Tariffs below 16 give codes that fit in 3 bytes and differ pairwise. */
  lemma TariffCodesDistinct(a: bv32, b: bv32)
    requires a < 16 && b < 16
    ensures TariffCode(a) < 0x100_0000
    ensures TariffCode(a) == TariffCode(b) <==> a == b
  {
  }

  /** Each register of the catalog is matched by exactly its own bytes. */
  lemma RegisterWindows(t: seq<byte>, i: nat)
    ensures MatchAt(t, i, TotalConsumption.code, TotalConsumption.width)
            <==> (i + 2 <= |t| && t[i] == 0x0E && t[i + 1] == 0x03)
    ensures MatchAt(t, i, CurrentConsumption.code, CurrentConsumption.width)
            <==> (i + 2 <= |t| && t[i] == 0x0B && t[i + 1] == 0x2B)
    ensures MatchAt(t, i, TotalProduction.code, TotalProduction.width)
            <==> (i + 3 <= |t| && t[i] == 0x0E && t[i + 1] == 0x83 && t[i + 2] == 0x3C)
    ensures MatchAt(t, i, CurrentProduction.code, CurrentProduction.width)
            <==> (i + 3 <= |t| && t[i] == 0x0B && t[i + 1] == 0xAB && t[i + 2] == 0x3C)
    ensures MatchAt(t, i, VoltageRegister, 4)
            <==> (i + 4 <= |t| && t[i] == 0x0A && t[i + 1] == 0xFD && t[i + 2] == 0xC9 && t[i + 3] == 0xFC)
  {
    Window2(t, i, 0x0E03, 0x0E, 0x03);
    Window2(t, i, 0x0B2B, 0x0B, 0x2B);
    Window3(t, i, 0x0E833C, 0x0E, 0x83, 0x3C);
    Window3(t, i, 0x0BAB3C, 0x0B, 0xAB, 0x3C);
    Window4(t, i, 0x0AFDC9FC, 0x0A, 0xFD, 0xC9, 0xFC);
  }

  /** The tariff codes of tariffs 1 to 3 are matched by exactly their bytes. */
  lemma TariffWindows(t: seq<byte>, i: nat)
    ensures MatchAt(t, i, TariffConsumption(1).code, 3)
            <==> (i + 3 <= |t| && t[i] == 0x8E && t[i + 1] == 0x10 && t[i + 2] == 0x03)
    ensures MatchAt(t, i, TariffConsumption(2).code, 3)
            <==> (i + 3 <= |t| && t[i] == 0x8E && t[i + 1] == 0x20 && t[i + 2] == 0x03)
    ensures MatchAt(t, i, TariffConsumption(3).code, 3)
            <==> (i + 3 <= |t| && t[i] == 0x8E && t[i + 1] == 0x30 && t[i + 2] == 0x03)
  {
    TariffCodes();
    Window3(t, i, 0x8E1003, 0x8E, 0x10, 0x03);
    Window3(t, i, 0x8E2003, 0x8E, 0x20, 0x03);
    Window3(t, i, 0x8E3003, 0x8E, 0x30, 0x03);
  }

  lemma Window2(t: seq<byte>, i: nat, code: nat, b0: byte, b1: byte)
    requires code < Pow256(2) && BytesOf(code, 2) == [b0, b1]
    ensures MatchAt(t, i, code, 2) <==> (i + 2 <= |t| && t[i] == b0 && t[i + 1] == b1)
  {
    if i + 2 <= |t| {
      CodeWindow(t, i, code, 2);
      assert t[i..i + 2] == [t[i], t[i + 1]];
    }
  }

  lemma Window3(t: seq<byte>, i: nat, code: nat, b0: byte, b1: byte, b2: byte)
    requires code < Pow256(3) && BytesOf(code, 3) == [b0, b1, b2]
    ensures MatchAt(t, i, code, 3) <==> (i + 3 <= |t| && t[i] == b0 && t[i + 1] == b1 && t[i + 2] == b2)
  {
    if i + 3 <= |t| {
      CodeWindow(t, i, code, 3);
      assert t[i..i + 3] == [t[i], t[i + 1], t[i + 2]];
    }
  }

  lemma Window4(t: seq<byte>, i: nat, code: nat, b0: byte, b1: byte, b2: byte, b3: byte)
    requires code < Pow256(4) && BytesOf(code, 4) == [b0, b1, b2, b3]
    ensures MatchAt(t, i, code, 4)
            <==> (i + 4 <= |t| && t[i] == b0 && t[i + 1] == b1 && t[i + 2] == b2 && t[i + 3] == b3)
  {
    if i + 4 <= |t| {
      CodeWindow(t, i, code, 4);
      assert t[i..i + 4] == [t[i], t[i + 1], t[i + 2], t[i + 3]];
    }
  }

  // ---------------------------------------------------------------------------
  // What a scanner finds
  // ---------------------------------------------------------------------------

  /** The least position at or after `from` whose window holds `code`. */
  function FirstMatch(t: seq<byte>, code: nat, w: nat, from: nat): (r: Option<nat>)
    ensures r.Some? ==> from <= r.value < |t| && MatchAt(t, r.value, code, w)
    ensures r.Some? ==> forall j | from <= j < r.value :: !MatchAt(t, j, code, w)
    ensures r.None? ==> forall j | from <= j < |t| :: !MatchAt(t, j, code, w)
    decreases |t| - from
  {
    if from >= |t| then None
    else if MatchAt(t, from, code, w) then Some(from)
    else FirstMatch(t, code, w, from + 1)
  }

  /** The payload at `start`, or None when it does not fit in the telegram. */
  function Payload(bcd: Decoder, t: seq<byte>, start: nat, len: nat, divisor: nat): (r: Option<Reading>)
    ensures r.Some? <==> start + len <= |t|
    ensures r.Some? ==> start + len <= |t| && r.value == Reading(bcd(t[start..start + len]), divisor)
  {
    if start + len <= |t| then Some(Reading(bcd(t[start..start + len]), divisor)) else None
  }

  /**
   * The reading of a code-only register: absent when its code occurs at no
   * position from the header on; otherwise the payload that follows the
   * first occurrence, whatever comes later.
   */
  function CodeField(bcd: Decoder, t: seq<byte>, f: CodeSpec): (r: Option<Reading>)
    ensures r.Some? ==> r.value.divisor == f.divisor
    ensures |t| <= Header ==> r == None
  {
    match FirstMatch(t, f.code, f.width, Header)
    case None => None
    case Some(m) => Payload(bcd, t, m + f.advance, f.len, f.divisor)
  }

  /** First match wins: the field is the payload after the first occurrence of the code, if any. */
  lemma CodeFieldFirstMatch(bcd: Decoder, t: seq<byte>, f: CodeSpec)
    ensures (forall j | Header <= j < |t| :: !MatchAt(t, j, f.code, f.width)) ==> CodeField(bcd, t, f) == None
    ensures forall m | Header <= m < |t| && MatchAt(t, m, f.code, f.width)
                       && (forall j | Header <= j < m :: !MatchAt(t, j, f.code, f.width)) ::
              CodeField(bcd, t, f) == Payload(bcd, t, m + f.advance, f.len, f.divisor)
  {
  }

  /**
   * The phase-voltage scan from `from` on.  A register match whose selector
   * byte is not `phase` does not stop the scan, which resumes six bytes after
   * the match.
   */
  function VoltageFrom(bcd: Decoder, t: seq<byte>, phase: byte, from: nat): (r: Option<Reading>)
    ensures from >= |t| ==> r == None
    ensures r.Some? ==> r.value.divisor == 1
    decreases |t| - from
  {
    if from >= |t| then None
    else if MatchAt(t, from, VoltageRegister, 4) then
      if from + 4 < |t| && t[from + 4] == phase then
        Payload(bcd, t, from + 5, 2, 1)
      else
        VoltageFrom(bcd, t, phase, from + 6)
    else
      VoltageFrom(bcd, t, phase, from + 1)
  }

  function VoltageField(bcd: Decoder, t: seq<byte>, phase: byte): Option<Reading>
  {
    VoltageFrom(bcd, t, phase, Header)
  }

  /**
   * A phase reading comes from a voltage register whose selector byte is the
   * phase, from the two bytes after the selector.
   */
  lemma {:induction false} VoltageFound(bcd: Decoder, t: seq<byte>, phase: byte, from: nat)
    requires VoltageFrom(bcd, t, phase, from).Some?
    ensures exists m :: from <= m && m + 7 <= |t| && MatchAt(t, m, VoltageRegister, 4) && t[m + 4] == phase
                        && VoltageFrom(bcd, t, phase, from).value == Reading(bcd(t[m + 5..m + 7]), 1)
    decreases |t| - from
  {
    if MatchAt(t, from, VoltageRegister, 4) {
      if from + 4 < |t| && t[from + 4] == phase {
        assert from + 7 <= |t|;
      } else {
        VoltageFound(bcd, t, phase, from + 6);
      }
    } else {
      VoltageFound(bcd, t, phase, from + 1);
    }
  }

  /** Without any voltage register from `from` on, no phase has a reading. */
  lemma {:induction false} VoltageAbsent(bcd: Decoder, t: seq<byte>, phase: byte, from: nat)
    requires forall j | from <= j < |t| :: !MatchAt(t, j, VoltageRegister, 4)
    ensures VoltageFrom(bcd, t, phase, from) == None
    decreases |t| - from
  {
    if from < |t| {
      VoltageAbsent(bcd, t, phase, from + 1);
    }
  }

  /**
   * The first voltage register at or after `from` decides: with the right
   * selector its payload is the reading, otherwise the scan goes on six bytes
   * after it.
   */
  lemma {:induction false} VoltageFirstRegister(bcd: Decoder, t: seq<byte>, phase: byte, from: nat, m: nat)
    requires from <= m && MatchAt(t, m, VoltageRegister, 4)
    requires forall j | from <= j < m :: !MatchAt(t, j, VoltageRegister, 4)
    ensures VoltageFrom(bcd, t, phase, from)
              == if m + 4 < |t| && t[m + 4] == phase then Payload(bcd, t, m + 5, 2, 1)
                 else VoltageFrom(bcd, t, phase, m + 6)
    decreases m - from
  {
    if from < m {
      VoltageFirstRegister(bcd, t, phase, from + 1, m);
    }
  }

  // ---------------------------------------------------------------------------
  // The scanners
  // ---------------------------------------------------------------------------

  /** The scan loop shared by the five code-only scanners. */
  method ScanCode(bcd: Decoder, t: seq<byte>, f: CodeSpec) returns (r: Option<Reading>)
    ensures r == CodeField(bcd, t, f)
  {
    r := None;
    var i: nat := Header;
    while i < |t|
      invariant Header <= i
      invariant r == None
      invariant FirstMatch(t, f.code, f.width, i) == FirstMatch(t, f.code, f.width, Header)
      decreases |t| - i
    {
      if i + f.width <= |t| && BigEndian(t[i..i + f.width]) == f.code {
        i := i + f.advance;
        if i + f.len <= |t| {
          var usage := bcd(t[i..i + f.len]);
          r := Some(Reading(usage, f.divisor));
        }
        break;
      }
      i := i + 1;
    }
  }

  method TotalEnergyConsumptionKwh(bcd: Decoder, t: seq<byte>) returns (r: Option<Reading>)
    ensures r == CodeField(bcd, t, TotalConsumption)
  {
    r := ScanCode(bcd, t, TotalConsumption);
  }

  method TotalEnergyConsumptionByTarrifKwh(bcd: Decoder, tarrif: bv32, t: seq<byte>) returns (r: Option<Reading>)
    ensures r == CodeField(bcd, t, TariffConsumption(tarrif))
  {
    r := ScanCode(bcd, t, TariffConsumption(tarrif));
  }

  method CurrentPowerConsumptionKw(bcd: Decoder, t: seq<byte>) returns (r: Option<Reading>)
    ensures r == CodeField(bcd, t, CurrentConsumption)
  {
    r := ScanCode(bcd, t, CurrentConsumption);
  }

  method TotalEnergyProductionKwh(bcd: Decoder, t: seq<byte>) returns (r: Option<Reading>)
    ensures r == CodeField(bcd, t, TotalProduction)
  {
    r := ScanCode(bcd, t, TotalProduction);
  }

  method CurrentPowerProductionKw(bcd: Decoder, t: seq<byte>) returns (r: Option<Reading>)
    ensures r == CodeField(bcd, t, CurrentProduction)
  {
    r := ScanCode(bcd, t, CurrentProduction);
  }

  method VoltageAtPhaseV(bcd: Decoder, phase: byte, t: seq<byte>) returns (r: Option<Reading>)
    ensures r == VoltageField(bcd, t, phase)
  {
    r := None;
    var i: nat := Header;
    while i < |t|
      invariant Header <= i
      invariant r == None
      invariant VoltageFrom(bcd, t, phase, i) == VoltageField(bcd, t, phase)
      decreases |t| - i
    {
      if i + 4 <= |t| && BigEndian(t[i..i + 4]) == VoltageRegister {
        i := i + 5;
        if i - 1 < |t| && t[i - 1] == phase {
          if i + 2 <= |t| {
            var usage := bcd(t[i..i + 2]);
            r := Some(Reading(usage, 1));
          }
          break;
        }
      }
      i := i + 1;
    }
  }

  // ---------------------------------------------------------------------------
  // Assembling the result
  // ---------------------------------------------------------------------------

  datatype Field = Field(name: string, value: Option<Reading>)

  /** The host driver's `add_to_map`: insert the reading when there is one. */
  function AddToMap(m: map<string, Reading>, name: string, v: Option<Reading>): (r: map<string, Reading>)
    ensures v.None? ==> r == m
    ensures v.Some? ==> name in r && r[name] == v.value
  {
    if v.Some? then m[name := v.value] else m
  }

  /** `add_to_map` adds at most its own key and changes no other entry. */
  lemma AddToMapOthers(m: map<string, Reading>, name: string, v: Option<Reading>)
    ensures AddToMap(m, name, v).Keys == if v.Some? then m.Keys + {name} else m.Keys
    ensures forall k | k in m && k != name :: AddToMap(m, name, v)[k] == m[k]
  {
  }

  /** The map built by inserting the fields in order. */
  function Collect(fs: seq<Field>): (r: map<string, Reading>)
  {
    if |fs| == 0 then map[] else AddToMap(Collect(fs[..|fs| - 1]), fs[|fs| - 1].name, fs[|fs| - 1].value)
  }

  const FieldNames: seq<string> := [
    "total_energy_consumption_kwh",
    "total_energy_consumption_tarrif_1_kwh",
    "total_energy_consumption_tarrif_2_kwh",
    "total_energy_consumption_tarrif_3_kwh",
    "current_power_consumption_kw",
    "total_energy_production_kwh",
    "current_power_production_kw",
    "voltage_at_phase_1_v",
    "voltage_at_phase_2_v",
    "voltage_at_phase_3_v"
  ]

  /** Lookup number `k` of `get_values`, in its order, under its name. */
  function FieldAt(bcd: Decoder, t: seq<byte>, k: nat): Field
    requires k < |FieldNames|
  {
    Field(FieldNames[k],
      if k == 0 then CodeField(bcd, t, TotalConsumption)
      else if k == 1 then CodeField(bcd, t, TariffConsumption(1))
      else if k == 2 then CodeField(bcd, t, TariffConsumption(2))
      else if k == 3 then CodeField(bcd, t, TariffConsumption(3))
      else if k == 4 then CodeField(bcd, t, CurrentConsumption)
      else if k == 5 then CodeField(bcd, t, TotalProduction)
      else if k == 6 then CodeField(bcd, t, CurrentProduction)
      else if k == 7 then VoltageField(bcd, t, 1)
      else if k == 8 then VoltageField(bcd, t, 2)
      else VoltageField(bcd, t, 3))
  }

  /** The ten lookups of `get_values`, in its order, each under its name. */
  function Fields(bcd: Decoder, t: seq<byte>): (fs: seq<Field>)
    ensures |fs| == |FieldNames|
    ensures forall k | 0 <= k < |fs| :: fs[k].name == FieldNames[k]
  {
    seq(|FieldNames|, k requires 0 <= k < |FieldNames| => FieldAt(bcd, t, k))
  }

  /** What `get_values` returns: the collected map, or None when it is empty. */
  function Values(bcd: Decoder, t: seq<byte>): (r: Option<map<string, Reading>>)
  {
    var m := Collect(Fields(bcd, t));
    if |m| > 0 then Some(m) else None
  }

  /** The map `get_values` holds after its first `k` insertions. */
  function CollectUpTo(bcd: Decoder, t: seq<byte>, k: nat): map<string, Reading>
    requires k <= |FieldNames|
  {
    if k == 0 then map[] else AddToMap(CollectUpTo(bcd, t, k - 1), FieldNames[k - 1], FieldAt(bcd, t, k - 1).value)
  }

  method GetValues(bcd: Decoder, t: seq<byte>) returns (r: Option<map<string, Reading>>)
    ensures r == Values(bcd, t)
  {
    var retVal: map<string, Reading> := map[];
    var v: Option<Reading>;
    v := TotalEnergyConsumptionKwh(bcd, t);
    retVal := AddToMap(retVal, FieldNames[0], v);
    assert retVal == CollectUpTo(bcd, t, 1);
    v := TotalEnergyConsumptionByTarrifKwh(bcd, 1, t);
    retVal := AddToMap(retVal, FieldNames[1], v);
    assert retVal == CollectUpTo(bcd, t, 2);
    v := TotalEnergyConsumptionByTarrifKwh(bcd, 2, t);
    retVal := AddToMap(retVal, FieldNames[2], v);
    assert retVal == CollectUpTo(bcd, t, 3);
    v := TotalEnergyConsumptionByTarrifKwh(bcd, 3, t);
    retVal := AddToMap(retVal, FieldNames[3], v);
    assert retVal == CollectUpTo(bcd, t, 4);
    v := CurrentPowerConsumptionKw(bcd, t);
    retVal := AddToMap(retVal, FieldNames[4], v);
    assert retVal == CollectUpTo(bcd, t, 5);
    v := TotalEnergyProductionKwh(bcd, t);
    retVal := AddToMap(retVal, FieldNames[5], v);
    assert retVal == CollectUpTo(bcd, t, 6);
    v := CurrentPowerProductionKw(bcd, t);
    retVal := AddToMap(retVal, FieldNames[6], v);
    assert retVal == CollectUpTo(bcd, t, 7);
    v := VoltageAtPhaseV(bcd, 1, t);
    retVal := AddToMap(retVal, FieldNames[7], v);
    assert retVal == CollectUpTo(bcd, t, 8);
    v := VoltageAtPhaseV(bcd, 2, t);
    retVal := AddToMap(retVal, FieldNames[8], v);
    assert retVal == CollectUpTo(bcd, t, 9);
    v := VoltageAtPhaseV(bcd, 3, t);
    retVal := AddToMap(retVal, FieldNames[9], v);
    assert retVal == CollectUpTo(bcd, t, 10);
    CollectUpToFields(bcd, t, |FieldNames|);
    assert Fields(bcd, t)[..|FieldNames|] == Fields(bcd, t);
    if |retVal| > 0 {
      r := Some(retVal);
    } else {
      r := None;
    }
  }

  /** The first `k` insertions build the map collected from the first `k` lookups. */
  lemma {:induction false} CollectUpToFields(bcd: Decoder, t: seq<byte>, k: nat)
    requires k <= |FieldNames|
    ensures CollectUpTo(bcd, t, k) == Collect(Fields(bcd, t)[..k])
  {
    if k > 0 {
      CollectUpToFields(bcd, t, k - 1);
      var fs := Fields(bcd, t);
      assert fs[..k][..k - 1] == fs[..k - 1];
    }
  }

  /** A name is a key of the collected map exactly when some field under it is present. */
  lemma {:induction false} CollectKeys(fs: seq<Field>)
    ensures forall key :: key in Collect(fs) <==>
              exists k | 0 <= k < |fs| :: fs[k].name == key && fs[k].value.Some?
  {
    if |fs| > 0 {
      var p := fs[..|fs| - 1];
      CollectKeys(p);
      assert forall k | 0 <= k < |p| :: p[k] == fs[k];
    }
  }

  /** With distinct names, every present field keeps its own reading in the map. */
  lemma {:induction false} CollectValue(fs: seq<Field>, k: nat)
    requires forall a, b | 0 <= a < b < |fs| :: fs[a].name != fs[b].name
    requires k < |fs| && fs[k].value.Some?
    ensures fs[k].name in Collect(fs) && Collect(fs)[fs[k].name] == fs[k].value.value
  {
    var p := fs[..|fs| - 1];
    if k < |fs| - 1 {
      CollectValue(p, k);
    }
  }

  lemma FieldNamesDistinct()
    ensures forall a, b | 0 <= a < b < |FieldNames| :: FieldNames[a] != FieldNames[b]
  {
  }

  /**
   * `get_values` gives None exactly when all ten lookups are absent;
   * otherwise its keys are field names and each present field is under its
   * own name with its own reading.
   */
  lemma ValuesSpec(bcd: Decoder, t: seq<byte>)
    ensures Values(bcd, t).None? <==> forall k | 0 <= k < |FieldNames| :: Fields(bcd, t)[k].value.None?
    ensures Values(bcd, t).Some? ==>
              var m := Values(bcd, t).value;
              (forall key | key in m :: key in FieldNames) &&
              (forall k | 0 <= k < |FieldNames| ::
                 (FieldNames[k] in m <==> Fields(bcd, t)[k].value.Some?) &&
                 (FieldNames[k] in m ==> m[FieldNames[k]] == Fields(bcd, t)[k].value.value))
  {
    FieldNamesDistinct();
    CollectNamed(Fields(bcd, t), FieldNames);
  }

  /** `ValuesSpec` for fields carrying distinct names in order. */
  lemma CollectNamed(fs: seq<Field>, names: seq<string>)
    requires |fs| == |names| && forall k | 0 <= k < |fs| :: fs[k].name == names[k]
    requires forall a, b | 0 <= a < b < |names| :: names[a] != names[b]
    ensures |Collect(fs)| == 0 <==> forall k | 0 <= k < |fs| :: fs[k].value.None?
    ensures forall key | key in Collect(fs) :: key in names
    ensures forall k | 0 <= k < |fs| ::
              (names[k] in Collect(fs) <==> fs[k].value.Some?) &&
              (names[k] in Collect(fs) ==> Collect(fs)[names[k]] == fs[k].value.value)
  {
    CollectEmpty(fs);
    CollectKeysNamed(fs, names);
    forall k | 0 <= k < |fs|
      ensures names[k] in Collect(fs) <==> fs[k].value.Some?
      ensures names[k] in Collect(fs) ==> Collect(fs)[names[k]] == fs[k].value.value
    {
      CollectAt(fs, names, k);
    }
  }

  lemma CollectEmpty(fs: seq<Field>)
    ensures |Collect(fs)| == 0 <==> forall k | 0 <= k < |fs| :: fs[k].value.None?
  {
    if forall k | 0 <= k < |fs| :: fs[k].value.None? {
      CollectAllAbsent(fs);
    } else {
      var k :| 0 <= k < |fs| && fs[k].value.Some?;
      CollectKeys(fs);
      assert fs[k].name in Collect(fs);
    }
  }

  /** The collected map has at most one key per field. */
  lemma {:induction false} CollectSize(fs: seq<Field>)
    ensures |Collect(fs)| <= |fs|
  {
    if |fs| > 0 {
      CollectSize(fs[..|fs| - 1]);
    }
  }

  /** A present result holds between one and ten readings. */
  lemma ValuesSize(bcd: Decoder, t: seq<byte>)
    ensures Values(bcd, t).Some? ==> 0 < |Values(bcd, t).value| <= |FieldNames|
  {
    CollectSize(Fields(bcd, t));
  }

  lemma {:induction false} CollectAllAbsent(fs: seq<Field>)
    requires forall k | 0 <= k < |fs| :: fs[k].value.None?
    ensures Collect(fs) == map[]
  {
    if |fs| > 0 {
      CollectAllAbsent(fs[..|fs| - 1]);
    }
  }


  lemma CollectKeysNamed(fs: seq<Field>, names: seq<string>)
    requires |fs| == |names| && forall k | 0 <= k < |fs| :: fs[k].name == names[k]
    ensures forall key | key in Collect(fs) :: key in names
  {
    CollectKeys(fs);
  }

  lemma CollectAt(fs: seq<Field>, names: seq<string>, k: nat)
    requires |fs| == |names| && forall k | 0 <= k < |fs| :: fs[k].name == names[k]
    requires forall a, b | 0 <= a < b < |names| :: names[a] != names[b]
    requires k < |fs|
    ensures names[k] in Collect(fs) <==> fs[k].value.Some?
    ensures names[k] in Collect(fs) ==> Collect(fs)[names[k]] == fs[k].value.value
  {
    CollectKeys(fs);
    if fs[k].value.Some? {
      CollectValue(fs, k);
    }
  }

  // ---------------------------------------------------------------------------
  // Properties of the decoder
  // ---------------------------------------------------------------------------

  /** A telegram no longer than the header yields no measurement at all. */
  lemma ShortTelegramHasNoValues(bcd: Decoder, t: seq<byte>)
    requires |t| <= Header
    ensures Values(bcd, t) == None
  {
    var fs := Fields(bcd, t);
    forall k | 0 <= k < |fs|
      ensures fs[k].value.None?
    {
      assert fs[k] == FieldAt(bcd, t, k);
    }
    CollectEmpty(fs);
  }

  /** The telegrams agree from the header on. */
  predicate SameAfterHeader(t: seq<byte>, u: seq<byte>)
  {
    |t| == |u| && forall j | Header <= j < |t| :: t[j] == u[j]
  }

  lemma SameWindow(t: seq<byte>, u: seq<byte>, i: nat, len: nat)
    requires SameAfterHeader(t, u) && Header <= i && i + len <= |t|
    ensures t[i..i + len] == u[i..i + len]
  {
    assert forall k | i <= k < i + len :: t[k] == u[k];
  }

  lemma {:induction false} FirstMatchIgnoresHeader(t: seq<byte>, u: seq<byte>, code: nat, w: nat, from: nat)
    requires SameAfterHeader(t, u) && Header <= from
    ensures FirstMatch(t, code, w, from) == FirstMatch(u, code, w, from)
    decreases |t| - from
  {
    if from < |t| {
      if from + w <= |t| {
        SameWindow(t, u, from, w);
      }
      FirstMatchIgnoresHeader(t, u, code, w, from + 1);
    }
  }

  lemma CodeFieldIgnoresHeader(bcd: Decoder, t: seq<byte>, u: seq<byte>, f: CodeSpec)
    requires SameAfterHeader(t, u)
    ensures CodeField(bcd, t, f) == CodeField(bcd, u, f)
  {
    FirstMatchIgnoresHeader(t, u, f.code, f.width, Header);
    var r := FirstMatch(t, f.code, f.width, Header);
    if r.Some? && r.value + f.advance + f.len <= |t| {
      SameWindow(t, u, r.value + f.advance, f.len);
    }
  }

  lemma {:induction false} VoltageIgnoresHeader(bcd: Decoder, t: seq<byte>, u: seq<byte>, phase: byte, from: nat)
    requires SameAfterHeader(t, u) && Header <= from
    ensures VoltageFrom(bcd, t, phase, from) == VoltageFrom(bcd, u, phase, from)
    decreases |t| - from
  {
    if from < |t| {
      if from + 4 <= |t| {
        SameWindow(t, u, from, 4);
      }
      if MatchAt(t, from, VoltageRegister, 4) {
        if from + 4 < |t| && t[from + 4] == phase {
          if from + 7 <= |t| {
            SameWindow(t, u, from + 5, 2);
          }
        } else {
          VoltageIgnoresHeader(bcd, t, u, phase, from + 6);
        }
      } else {
        VoltageIgnoresHeader(bcd, t, u, phase, from + 1);
      }
    }
  }

  /** Each of the ten lookups ignores bytes 0 to 10. */
  lemma FieldAtIgnoresHeader(bcd: Decoder, t: seq<byte>, u: seq<byte>, k: nat)
    requires SameAfterHeader(t, u) && k < |FieldNames|
    ensures FieldAt(bcd, t, k) == FieldAt(bcd, u, k)
  {
    if k == 0 {
      CodeFieldIgnoresHeader(bcd, t, u, TotalConsumption);
    } else if k == 1 {
      CodeFieldIgnoresHeader(bcd, t, u, TariffConsumption(1));
    } else if k == 2 {
      CodeFieldIgnoresHeader(bcd, t, u, TariffConsumption(2));
    } else if k == 3 {
      CodeFieldIgnoresHeader(bcd, t, u, TariffConsumption(3));
    } else if k == 4 {
      CodeFieldIgnoresHeader(bcd, t, u, CurrentConsumption);
    } else if k == 5 {
      CodeFieldIgnoresHeader(bcd, t, u, TotalProduction);
    } else if k == 6 {
      CodeFieldIgnoresHeader(bcd, t, u, CurrentProduction);
    } else {
      VoltageIgnoresHeader(bcd, t, u, (k - 6) as byte, Header);
    }
  }

  /** Bytes 0 to 10 never affect what `get_values` returns. */
  lemma HeaderIgnored(bcd: Decoder, t: seq<byte>, u: seq<byte>)
    requires SameAfterHeader(t, u)
    ensures Values(bcd, t) == Values(bcd, u)
  {
    forall k | 0 <= k < |FieldNames|
      ensures Fields(bcd, t)[k] == Fields(bcd, u)[k]
    {
      FieldAtIgnoresHeader(bcd, t, u, k);
    }
    assert Fields(bcd, t) == Fields(bcd, u);
  }

  lemma {:induction false} FirstMatchExtends(t: seq<byte>, s: seq<byte>, code: nat, w: nat, from: nat)
    requires FirstMatch(t, code, w, from).Some?
    ensures FirstMatch(t + s, code, w, from) == FirstMatch(t, code, w, from)
    decreases |t| - from
  {
    var m := FirstMatch(t, code, w, from).value;
    assert (t + s)[from..from + w] == t[from..from + w] by {
      assert from + w <= m + w <= |t|;
    }
    if from < m {
      FirstMatchExtends(t, s, code, w, from + 1);
    }
  }

  /** Once a code-only register is found, bytes appended afterwards change nothing. */
  lemma CodeFieldExtends(bcd: Decoder, t: seq<byte>, s: seq<byte>, f: CodeSpec)
    requires CodeField(bcd, t, f).Some?
    ensures CodeField(bcd, t + s, f) == CodeField(bcd, t, f)
  {
    FirstMatchExtends(t, s, f.code, f.width, Header);
    var m := FirstMatch(t, f.code, f.width, Header).value;
    assert (t + s)[m + f.advance..m + f.advance + f.len] == t[m + f.advance..m + f.advance + f.len];
  }

  /** Once a phase voltage is found, bytes appended afterwards change nothing. */
  lemma {:induction false} VoltageExtends(bcd: Decoder, t: seq<byte>, s: seq<byte>, phase: byte, from: nat)
    requires VoltageFrom(bcd, t, phase, from).Some?
    ensures VoltageFrom(bcd, t + s, phase, from) == VoltageFrom(bcd, t, phase, from)
    decreases |t| - from
  {
    VoltageFound(bcd, t, phase, from);
    var u := t + s;
    if from + 4 <= |t| {
      assert u[from..from + 4] == t[from..from + 4];
    }
    if MatchAt(t, from, VoltageRegister, 4) {
      if from + 4 < |t| && t[from + 4] == phase {
        assert u[from + 5..from + 7] == t[from + 5..from + 7];
      } else {
        VoltageExtends(bcd, t, s, phase, from + 6);
      }
    } else {
      VoltageExtends(bcd, t, s, phase, from + 1);
    }
  }

  // ---------------------------------------------------------------------------
  // Concrete telegrams
  // ---------------------------------------------------------------------------

  /** Code 0E03 right after the header: its six payload bytes, scaled by 1000. */
  lemma TotalConsumptionAfterHeader(bcd: Decoder, h: seq<byte>, p: seq<byte>)
    requires |h| == Header && |p| >= 6
    ensures CodeField(bcd, h + [0x0E, 0x03] + p, TotalConsumption) == Some(Reading(bcd(p[..6]), 1000))
  {
    var t := h + [0x0E, 0x03] + p;
    RegisterWindows(t, Header);
    assert t[Header + 2..Header + 8] == p[..6];
  }

  /**
   * A telegram whose first 0E03 code from the header on is followed by fewer
   * than six payload bytes has no total consumption.
   */
  lemma TruncatedTotalConsumption(bcd: Decoder, t: seq<byte>, m: nat)
    requires Header <= m && MatchAt(t, m, TotalConsumption.code, TotalConsumption.width)
    requires forall j | Header <= j < m :: !MatchAt(t, j, TotalConsumption.code, TotalConsumption.width)
    requires |t| < m + 8
    ensures CodeField(bcd, t, TotalConsumption) == None
  {
  }

  /**
   * A telegram without the 0E03 code from the header on, cut right after the
   * code's first byte, still has no total consumption.
   */
  lemma CutInsideTotalConsumptionCode(bcd: Decoder, s: seq<byte>)
    requires forall j | Header <= j < |s| :: !MatchAt(s, j, TotalConsumption.code, TotalConsumption.width)
    ensures CodeField(bcd, s + [0x0E], TotalConsumption) == None
  {
    var t := s + [0x0E];
    forall j | Header <= j < |t|
      ensures !MatchAt(t, j, TotalConsumption.code, TotalConsumption.width)
    {
      RegisterWindows(t, j);
      RegisterWindows(s, j);
    }
  }

  /**
   * A telegram in which, from the header on, the byte 0x8E occurs only at the
   * start of the tariff-2 code 8E 20 03 followed by at least five more bytes:
   * tariff 2 is read from the code's last byte on and scaled by 100000, and
   * tariffs 1 and 3 are absent.
   */
  lemma TariffTwoOnly(bcd: Decoder, t: seq<byte>, m: nat)
    requires Header <= m && m + 8 <= |t|
    requires t[m] == 0x8E && t[m + 1] == 0x20 && t[m + 2] == 0x03
    requires forall j | Header <= j < |t| && j != m :: t[j] != 0x8E
    ensures var v := Values(bcd, t);
            v.Some? && FieldNames[2] in v.value &&
            v.value[FieldNames[2]] == Reading(bcd(t[m + 2..m + 8]), 100000) &&
            FieldNames[1] !in v.value && FieldNames[3] !in v.value
  {
    TariffTwoFields(bcd, t, m);
    ValuesSpec(bcd, t);
    assert Fields(bcd, t)[1] == FieldAt(bcd, t, 1);
    assert Fields(bcd, t)[2] == FieldAt(bcd, t, 2);
    assert Fields(bcd, t)[3] == FieldAt(bcd, t, 3);
  }

  /** The three tariff lookups in a telegram whose only 0x8E from the header on starts 8E 20 03. */
  lemma TariffTwoFields(bcd: Decoder, t: seq<byte>, m: nat)
    requires Header <= m && m + 8 <= |t|
    requires t[m] == 0x8E && t[m + 1] == 0x20 && t[m + 2] == 0x03
    requires forall j | Header <= j < |t| && j != m :: t[j] != 0x8E
    ensures CodeField(bcd, t, TariffConsumption(1)) == None
    ensures CodeField(bcd, t, TariffConsumption(2)) == Some(Reading(bcd(t[m + 2..m + 8]), 100000))
    ensures CodeField(bcd, t, TariffConsumption(3)) == None
  {
    forall j | Header <= j < |t|
      ensures !MatchAt(t, j, TariffConsumption(1).code, 3) && !MatchAt(t, j, TariffConsumption(3).code, 3)
      ensures j != m ==> !MatchAt(t, j, TariffConsumption(2).code, 3)
    {
      TariffWindows(t, j);
    }
    TariffWindows(t, m);
    CodeFieldFirstMatch(bcd, t, TariffConsumption(1));
    CodeFieldFirstMatch(bcd, t, TariffConsumption(2));
    CodeFieldFirstMatch(bcd, t, TariffConsumption(3));
  }

  /**
   * A voltage register followed by selector `sel`: the phase named by the
   * selector reads the two payload bytes, every other phase is absent.
   */
  lemma VoltageSelector(bcd: Decoder, h: seq<byte>, sel: byte, p0: byte, p1: byte, phase: byte)
    requires |h| == Header
    ensures VoltageField(bcd, h + [0x0A, 0xFD, 0xC9, 0xFC, sel, p0, p1], phase)
              == if phase == sel then Some(Reading(bcd([p0, p1]), 1)) else None
  {
    var t := h + [0x0A, 0xFD, 0xC9, 0xFC, sel, p0, p1];
    RegisterWindows(t, Header);
    assert t[Header + 5..Header + 7] == [p0, p1];
    VoltageFirstRegister(bcd, t, phase, Header, Header);
    VoltageAbsent(bcd, t, phase, Header + 6);
  }
}
