# Amiplus telegram decoder, modelled in Dafny

This project models the Amiplus driver (`struct Amiplus` in `driver_amiplus.h`) of the wM-Bus meter drivers. The driver takes one decrypted telegram, a byte vector, and returns up to ten named measurements:

- total energy consumption;
- consumption for tariffs 1, 2 and 3;
- current consumption power;
- total energy production;
- current production power;
- the voltage on phases 1, 2 and 3.

It returns "no value" when none of them is found.

Each measurement has its own scanner. A scanner starts at byte 11, which skips the header. It then slides forward one byte at a time and reads a 2-, 3- or 4-byte big-endian register code at each position. On the first code that matches, it advances the index by a fixed amount and hands the BCD payload there to the host driver's `bcd_2_int`. The voltage scanner first checks a selector byte that holds the phase number.

Files:

- `wrappers.dfy`: the `Option` datatype, which stands for `esphome::optional`.
- `amiplus.dfy`: module `Amiplus`. It holds the following:
  - **Bytes and the code window.** `BigEndian`, `BytesOf`, `MatchAt`, and the lemmas saying a window holds a code exactly when its bytes are the code's bytes.
  - **The register catalog.** `CodeSpec` records each register's code, code width, index advance, BCD length and divisor. The per-tariff code is computed in 32-bit unsigned arithmetic (`bv32`).
  - **Specification functions.** `FirstMatch`, `CodeField` and `VoltageFrom` say what each scanner finds.
  - **The scanners.** These are methods with the source's `while` loops. The five code-only scanners have identical loops that differ only in their constants, so they share one loop, `ScanCode`. Each one is proved equal to its specification function.
  - **`GetValues`.** It fills a map through ten `AddToMap` steps and then tests its size. It is proved equal to `Values`.
  - **Lemmas.** Assembly, header independence, later bytes being ignored, and concrete telegrams.

A reading is `Reading(raw, divisor)`: the integer that `bcd_2_int` returns and the divisor the driver applies to it. The physical value is `raw / divisor`.

`bcd_2_int` lives in `driver.h`, which is not part of this model. Every operation takes it as a parameter `bcd: seq<byte> -> nat`, applied to the payload bytes `t[start..start + len]`.

Two quirks of the code are kept as written:

- The index advance counts from the first byte of the match (`i += 2`, `i += 3`, `i += 5`). For the 3-byte tariff code the index advances only 2, so the tariff payload starts on the code's last byte (`TariffTwoOnly`).
- After a voltage register whose selector byte is not the phase, the scan resumes six bytes after the match (`VoltageFirstRegister`).

## Model

| member | source | states |
|---|---|---|
| `Amiplus.BigEndianOfBytes` | driver_amiplus.h:45-46 | Splitting a code into its bytes, most significant first, and rebuilding the big-endian window value gives the code back. |
| `Amiplus.BytesOfBigEndian` | driver_amiplus.h:45-46 | The bytes of a window's big-endian value are the window's own bytes, so the window value determines the bytes. |
| `Amiplus.BigEndian` | driver_amiplus.h:45-46 | The big-endian value of a byte run, most significant byte first; it is below 256^length. |
| `Amiplus.ShiftOr2` | driver_amiplus.h:67 | The uint32 expression `(t[i] << 8) OR t[i+1]` equals the big-endian value of the two bytes. |
| `Amiplus.ShiftOr3` | driver_amiplus.h:86 | The uint32 expression over three bytes (shifts 16, 8, 0) equals their big-endian value; the same form is at lines 124 and 143. |
| `Amiplus.ShiftOr4` | driver_amiplus.h:45-46 | The uint32 expression over four bytes (shifts 24, 16, 8, 0) equals their big-endian value. |
| `Amiplus.MatchAt` | driver_amiplus.h:45-47 | The `c == total_register` test at position i. A match implies that the window of the code's width fits in the telegram and that the code is below 256^width. |
| `Amiplus.CodeWindow` | driver_amiplus.h:45-47 | A window that fits matches a code below 256^width exactly when its bytes are that code's bytes. |
| `Amiplus.RegisterWindows` | driver_amiplus.h:43-144 | 0x0E03, 0x0B2B, 0x0E833C, 0x0BAB3C and 0x0AFDC9FC each match at position i exactly when the telegram holds their bytes at i..i+width. |
| `Amiplus.TariffCode` | driver_amiplus.h:84 | `0x8E0000 OR (tarrif << 12) OR 3` in uint32. The low 12 bits are always 003, and the bits of 0x8E0000 are always set. For tarrif < 16 the code is 8E t003 with the tariff in bits 12 to 15, and it is below 2^24. |
| `Amiplus.TariffCodes` | driver_amiplus.h:84 | 0x8E0000 OR (tarrif << 12) OR 3 gives 0x8E1003, 0x8E2003 and 0x8E3003 for tariffs 1, 2 and 3. |
| `Amiplus.TariffCodesDistinct` | driver_amiplus.h:84 | For tariffs below 16 the code fits in 3 bytes, and two tariffs have the same code only if they are equal. |
| `Amiplus.TariffWindows` | driver_amiplus.h:84-87 | The 3-byte window matches the tariff-1, tariff-2 or tariff-3 code exactly when it holds 8E 10 03, 8E 20 03 or 8E 30 03. |
| `Amiplus.FirstMatch` | driver_amiplus.h:64-76 | The found position is at or after the start and matches. No earlier position matches. None means that no position from the start up to the end matches. |
| `Amiplus.CodeField` | driver_amiplus.h:61-78 | Every reading carries the field's divisor. A telegram of at most 11 bytes gives no reading, because the loop starts at 11. |
| `Amiplus.CodeFieldFirstMatch` | driver_amiplus.h:66-77 | First match wins. With no match from byte 11 on, the field is absent. Otherwise the reading is the payload after the first match, whatever comes later. |
| `Amiplus.Payload` | driver_amiplus.h:69-71 | The `bcd_2_int` call and the division. A reading is present exactly when `len` bytes from `start` fit in the telegram. It is then the decoder applied to those bytes, with the field's divisor. |
| `Amiplus.ScanCode` | driver_amiplus.h:61-78 | The shared scan loop (start at 11, `i++`, advance and decode on the first match, `break`) returns exactly `CodeField`. |
| `Amiplus.TotalEnergyConsumptionKwh` | driver_amiplus.h:61-78 | Returns the first-match reading of code 0x0E03 (2 bytes wide), read from match+2 with 6 BCD bytes and divisor 1000. |
| `Amiplus.TotalEnergyConsumptionByTarrifKwh` | driver_amiplus.h:80-97 | Returns the first-match reading of the 3-byte tariff code, read from match+2 with 6 BCD bytes and divisor 100000. |
| `Amiplus.CurrentPowerConsumptionKw` | driver_amiplus.h:99-116 | Returns the first-match reading of code 0x0B2B, read from match+2 with 3 BCD bytes and divisor 1000. |
| `Amiplus.TotalEnergyProductionKwh` | driver_amiplus.h:118-135 | Returns the first-match reading of code 0x0E833C, read from match+3 with 6 BCD bytes and divisor 1000. |
| `Amiplus.CurrentPowerProductionKw` | driver_amiplus.h:137-154 | Returns the first-match reading of code 0x0BAB3C, read from match+3 with 3 BCD bytes and divisor 1000. |
| `Amiplus.VoltageFrom` | driver_amiplus.h:44-57 | The voltage loop from a position, as a recursive definition. From the end of the telegram on there is no reading, and every reading has divisor 1 (`usage / 1.0`). `VoltageFound` and `VoltageFirstRegister` state what the definition returns. |
| `Amiplus.VoltageAtPhaseV` | driver_amiplus.h:39-59 | The voltage loop returns exactly `VoltageFrom` from byte 11. On a selector mismatch it resumes at match+6; on a selector match it decodes and stops. |
| `Amiplus.VoltageFound` | driver_amiplus.h:47-53 | A voltage reading comes from a 0x0AFDC9FC match whose selector byte (match+4) is the phase from the two payload bytes at match+5, with divisor 1. |
| `Amiplus.VoltageAbsent` | driver_amiplus.h:44-58 | With no 0x0AFDC9FC register from the start position on, no phase has a reading. |
| `Amiplus.VoltageFirstRegister` | driver_amiplus.h:47-56 | The first voltage register decides. With the right selector, its payload is the reading. Otherwise the result is the scan from match+6. |
| `Amiplus.VoltageSelector` | driver_amiplus.h:45-56 | Right after the header, a register with selector `sel` and two payload bytes gives those bytes for phase `sel` and nothing for any other phase. |
| `Amiplus.AddToMap` | driver_amiplus.h:19-28 | `add_to_map`: with no value the map is unchanged; with a value, the name maps to it. |
| `Amiplus.AddToMapOthers` | driver_amiplus.h:19-28 | `add_to_map` adds at most its own key and leaves every other entry unchanged. |
| `Amiplus.CollectUpToFields` | driver_amiplus.h:17-28 | The map after the first k insertions of `get_values` is the map collected from its first k lookups (`Collect`, insertion in order). |
| `Amiplus.CollectSize` | driver_amiplus.h:19-28 | The map collected from n fields has at most n keys. |
| `Amiplus.CollectEmpty` | driver_amiplus.h:19-30 | The collected map is empty exactly when every field is absent. |
| `Amiplus.Fields` | driver_amiplus.h:19-28 | The ten lookups of `get_values` in its order: total consumption, tariffs 1 to 3, current consumption, total production, current production, voltage on phases 1 to 3, each under its fixed name. |
| `Amiplus.ValuesSize` | driver_amiplus.h:30-35 | A present result holds between one and ten readings, so `get_values` (`Values`) never returns an empty map. |
| `Amiplus.GetValues` | driver_amiplus.h:16-36 | The ten insertions into the map and the size test give exactly `Values`, which depends on the telegram alone. |
| `Amiplus.CollectKeys` | driver_amiplus.h:19-28 | A name is a key of the collected map exactly when some field under that name is present. |
| `Amiplus.CollectValue` | driver_amiplus.h:19-28 | When names are distinct, every present field keeps its own reading in the collected map. |
| `Amiplus.ValuesSpec` | driver_amiplus.h:17-35 | The result is None exactly when all ten lookups are absent. Otherwise every key is one of the ten names, and a name is a key exactly when its field is present, holding that field's reading. |
| `Amiplus.ShortTelegramHasNoValues` | driver_amiplus.h:42-44 | A telegram of at most 11 bytes gives None. |
| `Amiplus.CodeFieldIgnoresHeader` | driver_amiplus.h:64-66 | A code-only field does not depend on bytes 0 to 10. |
| `Amiplus.VoltageIgnoresHeader` | driver_amiplus.h:42-44 | The voltage scan from byte 11 on does not depend on bytes 0 to 10. |
| `Amiplus.FieldAtIgnoresHeader` | driver_amiplus.h:19-28 | Each of the ten lookups of `get_values` ignores bytes 0 to 10. |
| `Amiplus.HeaderIgnored` | driver_amiplus.h:30-35 | Two telegrams of equal length that agree from byte 11 on give the same result. |
| `Amiplus.FirstMatchExtends` | driver_amiplus.h:66-76 | Once a match exists, appending bytes does not move the first match. |
| `Amiplus.CodeFieldExtends` | driver_amiplus.h:68-73 | Once a code-only field is found, appended bytes (for example later occurrences of its code) change nothing. |
| `Amiplus.VoltageExtends` | driver_amiplus.h:47-57 | Once a phase voltage is found, appended bytes change nothing. |
| `Amiplus.TotalConsumptionAfterHeader` | driver_amiplus.h:66-71 | 0E 03 right after the header gives the next six bytes, decoded, with divisor 1000. |
| `Amiplus.TruncatedTotalConsumption` | driver_amiplus.h:66-70 | In any telegram whose first 0E03 code from byte 11 on is followed by fewer than six payload bytes, total consumption is absent. |
| `Amiplus.CutInsideTotalConsumptionCode` | driver_amiplus.h:66-68 | A telegram with no 0E03 code from byte 11 on, cut after a trailing 0E (the code's first byte), has no total consumption. |
| `Amiplus.TariffTwoOnly` | driver_amiplus.h:84-90 | In any telegram where, from byte 11 on, 0x8E occurs only at the start of one 8E 20 03 code with at least five more bytes after it: tariff 2 reads the six bytes from the code's last byte (03) on with divisor 100000, and there is no tariff-1 or tariff-3 key. |
| `Amiplus.TariffTwoFields` | driver_amiplus.h:84-90 | Under the same conditions as `TariffTwoOnly`, tariffs 1 and 3 have no reading. Tariff 2 reads the six bytes from the code's last byte on, with divisor 100000. |

## Left out

- Out-of-bounds reads. The source guards its loops only by `i < telegram.size()`, yet reads up to 3 bytes further for the code. It can also call `bcd_2_int` with a payload past the end. Both are undefined behaviour. The model handles them instead:
  - a code window that does not fit in the telegram does not match;
  - a matched code whose payload does not fit gives an absent field, and the scan stops, as the source's `break` does;
  - a voltage register without a selector byte counts as a selector mismatch.
- Amiplus.Payload: the length argument of `bcd_2_int` (6, 3 or 2) is read as a count of bytes. The payload-fit test depends on this. `driver.h` is not part of this model, so this is an assumption. A length of 3 for 0B2B cannot be an even digit count of whole bytes. Also, M-Bus DIF 0x0E, 0x0B and 0x0A denote BCD fields of 6, 3 and 2 bytes.
- `bcd_2_int`: `driver.h` is not part of this model. The decoder is a parameter of every operation and is applied to the payload bytes. This assumes it reads only the bytes from `start` to `start + length`. No property of the BCD digits, their order or nibble validity is claimed.
- `add_to_map`: also lives in `driver.h`. It is modelled as `AddToMap`, which inserts the reading when one is present.
- Floating point: the `double` divisions by 1000.0, 100000.0 and 1.0 are kept as `Reading(raw, divisor)`.
- The 32-bit `usage` variable: the model keeps `raw` as an unbounded `nat`. Any truncation inside `bcd_2_int` is not part of this model.
- Logging through `ESP_LOGVV`: it has no effect on results.
- The constructor, the driver key and the `Driver` base class: plumbing with no effect on decoding. `Amiplus` keeps no state of its own, so the model has no class.
