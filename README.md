# amt-setupbin: a Dafny model of the Setup.bin variable logic

`amt-setupbin` writes an Intel AMT provisioning file (`Setup.bin`). The file is
a version-4 container holding one data record of configuration variables, such
as the MEBx passwords, policy flags, a power-package GUID and an optional
trusted-certificate hash. The tool's own logic lives in `main.js`, and this project
models it:

- **Registry** (`registry.dfy`). This is the type table `AmtSetupBinVariableTypes`
  plus `createAmtSetupBinVariables`. The nested vendor catalog
  (module id → variable id → `[type, name, domain]`) is flattened into a
  name → `{moduleId, id, type, domain}` table. It fails at the first entry whose
  name is already in the table, or else whose type code is not one of 0–4. The
  model is a method with a loop over the catalog entries, taken in the order the
  nested loops visit them. Its contract states the exact failure condition, which
  error comes first, and the contents of the table it builds. Lemmas add that an
  accepted catalog has distinct names and known types. They also show that the
  order of an accepted catalog does not change the table.
- **Container** (`container.dfy`). `createAmtSetupBin` is modelled up to the call
  of the encoder. Every name must be registered, and the first unknown one is the
  error. Each pair becomes `{moduleid, varid, value}` in order, and the rest of the
  container is fixed: version 4, consume flag 1, one record of type 1 with flags
  `Valid | Scrambled` = 3. `readAmtSetupBin` is modelled from the decoder's result:
  no result, then a version other than 4, then a record count other than 1 are
  refused in that order, and otherwise the single record's variables become
  `(desc, value)` pairs. A lemma shows that reading back a created container gives
  the original list. It assumes a decoder that inverts the encoder and names each
  id pair by its registry name.
- **Certificate** (`certificate.dfy`). This is the `--certificate` block of
  `main`. It checks the pattern `^(?<hash>[a-fA-F0-9]{64}) (?<name>.+)$`,
  hex-decodes the hash and packs
  `[2][32 hash bytes][String.fromCharCode(name.length)][name]`.
- **Provisioning** (`provisioning.dfy`). This is the variable list `main` builds:
  ten fixed pairs, then, when a certificate is given, its packed value and
  "Pre-Installed Certificates Enabled" = 0, then the PKI DNS suffix when given.
  That list is then handed to `createAmtSetupBin`.

Strings that carry values (passwords, the certificate option, the packed field,
the DNS suffix) are sequences of UTF-16 code units (`Values.JsString`), as
JavaScript strings are. This makes `String.fromCharCode(n)` exactly `n mod 2^16`,
and the pattern's `.` exactly "anything but LF, CR, U+2028, U+2029". Variable
names are Dafny strings. Each `throw` becomes a `Failure` with one `Error` per
message.

Behaviour of `main.js` worth knowing, which the model keeps:

- Registry construction checks for a duplicate name before it checks the type
  code, so an entry that is both a duplicate and of unknown type is reported as a
  duplicate.
- The certificate name's length is not checked. "Up to 32 bytes" appears only in a
  comment (main.js:132).
- The record type identifier of a decoded file is not checked.
- No variable's domain is checked. The domain is stored and never read.
- No value is checked against its variable's declared type before the list goes
  to the encoder.
- There is no reverse (module id, variable id) → name lookup in the tool. The
  description of a decoded variable comes from the decoder.
- The registry a catalog yields does not depend on the order of its entries when
  the catalog is accepted (`PermutedCatalogSameRegistry`). Which error a refused
  catalog reports does depend on that order.

## Model

| member | source | states |
|---|---|---|
| `Registry.TypeOf` | main.js:10-16 | a type code has a type exactly when it is one of 0, 1, 2, 3, 4 |
| `Registry.TypeTableBijective` | main.js:10-16 | the table maps the codes 0–4 one-to-one onto String, Int8, Int16, Int32, GUID |
| `Registry.CreateVariables` | main.js:20-40 | fails exactly when some entry repeats an earlier entry's name or has a type code outside the table; the error is that of the first such entry, duplicate name taking precedence over unknown type; on success the table's keys are exactly the catalog's names, each mapped to its own entry's module id, variable id, type and domain, and the names are distinct |
| `Registry.AcceptedIff` | main.js:22-30 | no entry is refused exactly when all names are distinct and all type codes are known |
| `Registry.DistinctFromAccepted` | main.js:25-27 | a catalog that passes the duplicate check has pairwise distinct names |
| `Registry.RegistryDetermined` | main.js:31-36 | the table a catalog registers is unique |
| `Registry.RegisteredIdsDistinct` | main.js:22-36 | in the table built from a catalog whose (module id, variable id) keys are unique, two different names never share an id pair |
| `Registry.PermutedCatalogSameRegistry` | main.js:22-38 | any reordering of an accepted catalog is accepted and yields the same table |
| `Container.RecordVariables` | main.js:87-97 | succeeds exactly when every name is registered, else fails with the first unregistered name; on success one record variable per pair, in order, with the registry's module id and variable id and the value unchanged |
| `Container.CreateSetup` | main.js:86-111 | same success condition and error as the name resolution; the container has file type 4, consume flag 1 and exactly one record with type identifier 1 and flags 3, whose variables correspond one-to-one and in order to the pairs |
| `Container.ReadSetup` | main.js:72-84 | no decoder result fails first, then a file type other than 4, then a record count other than 1; otherwise the result has one `(desc, value)` pair per variable of the single record, in order |
| `Container.ReadAfterCreate` | main.js:153-157 | reading back a created container through a decoder that inverts the encoder yields the original (name, value) list |
| `Certificate.MatchSpec` | main.js:133-138 | matches exactly when the option is 64 hex digits of either case, one space, and a non-empty name without line terminators; the groups are that hash and that name |
| `Certificate.HexDecodeEncode` | main.js:140 | hex-decoding the lower-case hex encoding of bytes gives the bytes back |
| `Certificate.HexEncodeDecode` | main.js:140 | hex-encoding decoded hex digits gives the digits back in lower case |
| `Certificate.PackCertificate` | main.js:127-142 | succeeds exactly when the option matches the pattern, else fails with the certificate error; the packed value has length 34 + name length, tag 2, the 32 bytes the hash's digit pairs spell, the name length modulo 2^16, then the name |
| `Certificate.PackedDigestIsHash` | main.js:139-140 | the 32 code units after the tag are bytes whose hex encoding is the hash in lower case |
| `Certificate.ShortHashRefused` | main.js:133-136 | a 63-digit hash followed by a space is refused, whatever the name |
| `Provisioning.SetupVariables` | main.js:113-150 | fails exactly when a given certificate does not match the pattern; otherwise the ten fixed pairs come first, then "User Defined Certificate Addition" with the packed value and "Pre-Installed Certificates Enabled" = 0 when a certificate is given, then "PKI DNS Suffix" when given, and nothing else |
| `Provisioning.BuildSetup` | main.js:113-153 | a certificate that does not pack is the error; otherwise the result is `createAmtSetupBin` of the list of ten fixed pairs, the packed certificate and the pre-installed switch when a certificate is given, and the DNS suffix last when given, so it fails with the first unregistered name of that list; the container is built exactly when a given certificate packs and every name of the list is registered, and it is the fixed version 4, single data record container holding one variable per pair |

## Left out

- `amt-setupbin.cjs` is not part of this model. That covers `AmtSetupBinCreate`, `AmtSetupBinEncode`, `AmtSetupBinDecode`, the catalog `AmtSetupBinVarIds`, and any byte layout, scrambling or checksum. The model covers only the values that cross that boundary: the container given to the encoder and the decoded value read back.
- `Container.ReadAfterCreate`: states the round trip only under the hypothesis that the decoder returns the encoded container with each id pair described by its registry name; the decoder is not shown. `Registry.RegisteredIdsDistinct` shows that such a naming exists when the catalog's keys are unique, as they are in a nested object.
- File reading and writing (`readAmtSetupBinFile`, `writeAmtSetupBin`, main.js:42-50) and the `amt-setupbin-img` process spawn (main.js:52-70) are I/O. So is `amt-setupbin-img/main.go`, which builds a FAT32 disk image through a library.
- Command-line parsing and its defaults ("admin", "HeyH0Password!", "Setup.bin"), the timestamped `log`, and the JSON debug dump (main.js:6-8, 152-175) are CLI and logging wrappers. `Provisioning.Options` receives the parsed option values.
- `Registry.CreateVariables`: type codes are integers. `hasOwnProperty` would also accept the strings "0" to "4", with the same type. Module and variable keys are naturals, standing in for `parseInt(key, 10)`. The name `__proto__`, which a plain JavaScript object does not store as an own property, is not modelled specially.
- The registry is a value passed to the functions that use it, not the module-level constant `AmtSetupBinVariables`.
- Values are strings or integers, the only kinds `main` passes. Other JavaScript values are not modelled.
- `Certificate.PackCertificate`: the packed field is a string of code units, as the tool builds it. How the encoder turns a name character above 255, or a length above 255, into bytes belongs to the encoder and is not modelled.
