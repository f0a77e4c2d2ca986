/**
 * The variable list `main` writes: ten fixed (name, value) pairs, then, when a
 * certificate is given, its packed value and the switch that disables the
 * pre-installed certificates, then, when given, the PKI DNS suffix. The list is
 * then turned into the container by `createAmtSetupBin`.
 */
module Provisioning {
  import opened Results
  import opened Values
  import opened Registry
  import opened Container
  import opened Certificate

  /** The options `main` reads (the output path and the debug switch belong to the I/O that is not modelled). */
  datatype Options = Options(
    currentPassword: JsString,
    newPassword: JsString,
    certificate: Option<JsString>,
    pkiDnsSuffix: Option<JsString>)

  /** JavaScript truthiness of an optional string option: absent and empty are both false. */
  predicate Given(o: Option<JsString>)
  {
    o.Some? && o.value != []
  }

  const UserDefinedCertificate: string := "User Defined Certificate Addition"
  const PreInstalledCertificates: string := "Pre-Installed Certificates Enabled"
  const PkiDnsSuffix: string := "PKI DNS Suffix"

  /** Power package "Desktop ON in S0; ME Wake in S3, S4-S5". */
  const DesktopPowerPackage: string := "46732273-DC23-2F43-A98A-13D37982D855"

  /** The ten pairs every Setup.bin carries, in order. */
  function FixedVariables(currentPassword: JsString, newPassword: JsString): (vs: seq<NamedValue>)
    ensures |vs| == 10
  {
    [ ("Current MEBx Password", Text(currentPassword)),
      ("New MEBx Password", Text(newPassword)),
      ("Manageability Feature Selection", Number(1)),         // Intel AMT
      ("Power Package", Text(Ascii(DesktopPowerPackage))),
      ("SOL/IDER Redirection Configuration", Number(7)),      // SOL+IDER, user/password enabled
      ("DHCP", Number(2)),                                    // enabled
      ("Shared/Dedicated FQDN", Number(1)),                   // shared
      ("Remote Desktop (KVM) State", Number(1)),              // enabled
      ("Opt-in User Consent Option", Number(0)),              // disabled
      ("Opt-in Remote IT Consent Policy", Number(1)) ]        // enabled
  }

  /** The number of pairs the list holds for `options` when the certificate packs. */
  function VariableCount(options: Options): nat
  {
    10 + (if Given(options.certificate) then 2 else 0) + (if Given(options.pkiDnsSuffix) then 1 else 0)
  }

  /**
   * `main` up to the write: builds the list by pushing onto the fixed pairs;
   * fails when a given certificate option does not match its pattern.
   */
  method SetupVariables(options: Options) returns (r: Result<seq<NamedValue>>)
    ensures r.Failure? <==> Given(options.certificate) && PackCertificate(options.certificate.value).Failure?
    ensures r.Failure? ==> r.error == MalformedCertificate
    ensures r.Success? ==> |r.value| == VariableCount(options)
    ensures r.Success? ==> r.value[..10] == FixedVariables(options.currentPassword, options.newPassword)
    ensures r.Success? && Given(options.certificate) ==>
              && r.value[10] == (UserDefinedCertificate, Text(PackCertificate(options.certificate.value).value))
              && r.value[11] == (PreInstalledCertificates, Number(0))
    ensures r.Success? && Given(options.pkiDnsSuffix) ==>
              r.value[|r.value| - 1] == (PkiDnsSuffix, Text(options.pkiDnsSuffix.value))
  {
    var setupBinVariables := FixedVariables(options.currentPassword, options.newPassword);
    if Given(options.certificate) {
      var packed := PackCertificate(options.certificate.value);
      if packed.Failure? {
        return Failure(packed.error);
      }
      setupBinVariables := setupBinVariables + [(UserDefinedCertificate, Text(packed.value))];
      setupBinVariables := setupBinVariables + [(PreInstalledCertificates, Number(0))];
    }
    if Given(options.pkiDnsSuffix) {
      setupBinVariables := setupBinVariables + [(PkiDnsSuffix, Text(options.pkiDnsSuffix.value))];
    }
    return Success(setupBinVariables);
  }

  ghost function NamesOf(vs: seq<NamedValue>): set<string>
  {
    set i | 0 <= i < |vs| :: vs[i].0
  }

  lemma NamesOfConcat(a: seq<NamedValue>, b: seq<NamedValue>)
    ensures NamesOf(a + b) == NamesOf(a) + NamesOf(b)
  {
    var ab := a + b;
    forall i | 0 <= i < |a| ensures a[i].0 in NamesOf(ab) {
      assert ab[i] == a[i];
    }
    forall i | 0 <= i < |b| ensures b[i].0 in NamesOf(ab) {
      assert ab[|a| + i] == b[i];
    }
    forall i | 0 <= i < |ab| ensures ab[i].0 in NamesOf(a) + NamesOf(b) {
      if i >= |a| {
        assert ab[i] == b[i - |a|];
      }
    }
  }

  /** The names the list holds for `options`: they must all be registered for the write to go ahead. */
  ghost function RequiredNames(options: Options): set<string>
  {
    NamesOf(FixedVariables(options.currentPassword, options.newPassword))
    + (if Given(options.certificate) then {UserDefinedCertificate, PreInstalledCertificates} else {})
    + (if Given(options.pkiDnsSuffix) then {PkiDnsSuffix} else {})
  }

  /**
   * `main` up to the encoder: the variable list, then `createAmtSetupBin` on it.
   * It goes ahead exactly when a given certificate packs and every name of the
   * list is registered.
   */
  method BuildSetup<D>(registry: VariableTable<D>, options: Options) returns (r: Result<SetupBin>)
    ensures Given(options.certificate) && PackCertificate(options.certificate.value).Failure? ==>
              r == Failure(MalformedCertificate)
    ensures r.Success? <==>
              && (Given(options.certificate) ==> PackCertificate(options.certificate.value).Success?)
              && RequiredNames(options) <= registry.Keys
    ensures r.Success? ==>
              && r.value.fileType == 4 && r.value.consumeRecordsFlag == 1 && |r.value.records| == 1
              && r.value.records[0].typeIdentifier == 1 && r.value.records[0].flags == 3
              && |r.value.records[0].variables| == VariableCount(options)
    ensures !(Given(options.certificate) && PackCertificate(options.certificate.value).Failure?) ==>
              exists vs: seq<NamedValue> ::
                && |vs| == VariableCount(options)
                && vs[..10] == FixedVariables(options.currentPassword, options.newPassword)
                && (Given(options.certificate) ==>
                      && vs[10] == (UserDefinedCertificate, Text(PackCertificate(options.certificate.value).value))
                      && vs[11] == (PreInstalledCertificates, Number(0)))
                && (Given(options.pkiDnsSuffix) ==> vs[|vs| - 1] == (PkiDnsSuffix, Text(options.pkiDnsSuffix.value)))
                && r == CreateSetup(registry, vs)
  {
    var variables := SetupVariables(options);
    if variables.Failure? {
      return Failure(variables.error);
    }
    var vs := variables.value;
    assert NamesOf(vs) == RequiredNames(options) by {
      var fixed := FixedVariables(options.currentPassword, options.newPassword);
      assert vs == fixed + vs[10..];
      NamesOfConcat(fixed, vs[10..]);
      var extra := vs[10..];
      if Given(options.certificate) {
        assert extra[0] == vs[10] && extra[1] == vs[11];
        assert |extra| >= 2;
        assert extra == extra[..2] + extra[2..];
        NamesOfConcat(extra[..2], extra[2..]);
        assert NamesOf(extra[..2]) == {UserDefinedCertificate, PreInstalledCertificates} by {
          assert extra[..2][0] == vs[10] && extra[..2][1] == vs[11];
        }
        if Given(options.pkiDnsSuffix) {
          assert extra[2..] == [vs[12]];
        } else {
          assert extra[2..] == [];
        }
      } else {
        if Given(options.pkiDnsSuffix) {
          assert extra == [vs[10]];
        } else {
          assert extra == [];
        }
      }
    }
    assert (forall i :: 0 <= i < |vs| ==> vs[i].0 in registry) <==> NamesOf(vs) <= registry.Keys;
    r := CreateSetup(registry, vs);
  }
}
