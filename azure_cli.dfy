/**
 * The PowerShell script generator for copying secrets with the Azure CLI: the
 * vault name taken from a Key Vault URL, single-quote escaping of values, and the
 * order of the script's parts. The script is a sequence of segments; the fixed
 * prose of each segment is not modelled.
 */
module AzureCli {
  import opened Wrappers
  import opened Text

  /** The name used when no vault name can be read from the URL. */
  const DefaultVaultName: string := "your-keyvault-name"

  /**
   * What the vault name of `url` is: the fallback when the URL is falsy or has no
   * `//`; otherwise, in the text after the first `//`, the fallback when that text
   * is empty or starts with `.` or `//`, and else the longest prefix that stops at
   * the end, at the first `.` or at the first `//`.
   */
  predicate IsVaultName(url: Option<string>, fallback: string, r: string) {
    if !Truthy(url) || IndexOf(url.value, "//").None? then r == fallback
    else
      var rest := url.value[IndexOf(url.value, "//").value + 2..];
      if rest == [] || rest[0] == '.' || OccursAt(rest, "//", 0) then r == fallback
      else HostPart(rest, r)
  }

  /**
   * `r` is the non-empty part of `rest` before its first `.` and before its first
   * `//`: a prefix holding neither, that ends where `rest` ends, at a `.` or at
   * the first `//`.
   */
  predicate HostPart(rest: string, r: string) {
    && |r| <= |rest| && r == rest[..|r|] && r != ""
    && !Includes(r, ".") && !Includes(r, "//")
    && (|r| == |rest| || rest[|r|] == '.' || IndexOf(rest, "//") == Some(|r|))
  }

  /** The rule names at most one host part: the vault name of a URL is determined. */
  lemma HostPartUnique(rest: string, r1: string, r2: string)
    requires HostPart(rest, r1) && HostPart(rest, r2)
    ensures r1 == r2
  {
    HostPartNoLonger(rest, r1, r2);
    HostPartNoLonger(rest, r2, r1);
    assert r1 == rest[..|r1|] && r2 == rest[..|r2|];
  }

  /** No host part is longer than another: what stops the one would lie inside the other. */
  lemma HostPartNoLonger(rest: string, short: string, long: string)
    requires HostPart(rest, short) && HostPart(rest, long)
    ensures |long| <= |short|
  {
    forall j | 0 <= j < |long| ensures rest[j] != '.' {
      assert long[j..j + 1] == rest[j..j + 1] && !OccursAt(long, ".", j);
    }
    forall j | 0 <= j && j + 2 <= |long| ensures !OccursAt(rest, "//", j) {
      assert long[j..j + 2] == rest[j..j + 2] && !OccursAt(long, "//", j);
    }
    var k := |short|;
    if k < |rest| && rest[k] != '.' {
      assert IndexOf(rest, "//") == Some(k);
      assert rest[k..k + 2] == "//";
      assert rest[k + 1] == rest[k..k + 2][1] == '/';
    }
  }

  /** The vault name of a URL is unique. */
  lemma VaultNameUnique(url: Option<string>, fallback: string, r1: string, r2: string)
    requires IsVaultName(url, fallback, r1) && IsVaultName(url, fallback, r2)
    ensures r1 == r2
  {
    if Truthy(url) && IndexOf(url.value, "//").Some? {
      var rest := url.value[IndexOf(url.value, "//").value + 2..];
      if !(rest == [] || rest[0] == '.' || OccursAt(rest, "//", 0)) {
        HostPartUnique(rest, r1, r2);
      }
    }
  }

  /**
   * `url.split('//')[1]?.split('.')[0] || fallback`, with a falsy URL giving the
   * fallback: the text after the first `//`, cut at the next `//` and then at the
   * first `.`.
   */
  function VaultNameOr(url: Option<string>, fallback: string): (r: string)
    requires fallback != "" && !Includes(fallback, ".") && !Includes(fallback, "//")
    ensures r != "" && !Includes(r, ".") && !Includes(r, "//")
    ensures IsVaultName(url, fallback, r)
  {
    if !Truthy(url) then fallback
    else match IndexOf(url.value, "//")
      case None => fallback
      case Some(i) =>
        var rest := url.value[i + 2..];
        var segment := CutAtFirst(rest, "//");
        var name := CutAtFirst(segment, ".");
        PrefixExcludes(segment, name, "//");
        CutsGiveHostPart(rest, segment, name);
        if name == "" then fallback else name
  }

  /**
   * Cutting `rest` at its first `//` and then at its first `.` leaves nothing
   * exactly when `rest` is empty or starts with `.` or `//`, and otherwise leaves
   * its host part.
   */
  lemma CutsGiveHostPart(rest: string, segment: string, name: string)
    requires segment == CutAtFirst(rest, "//") && name == CutAtFirst(segment, ".")
    ensures (name == "") == (rest == [] || rest[0] == '.' || OccursAt(rest, "//", 0))
    ensures name != "" ==> HostPart(rest, name)
  {
    PrefixExcludes(segment, name, "//");
    if rest != [] && rest[0] == '.' && !OccursAt(rest, "//", 0) {
      assert segment != [];
      assert segment[0..1] == rest[0..1];
      assert name == [];
    }
    if name != [] {
      assert name[0..1] == rest[0..1];
      assert rest[0] != '.';
      if name != segment {
        assert segment[|name|..|name| + 1] == ".";
        assert rest[|name|] == segment[|name|];
      }
    }
  }

  /** `s.split(sub)[0]`: the part of `s` before the first occurrence of `sub`. */
  function CutAtFirst(s: string, sub: string): (p: string)
    requires |sub| > 0
    ensures |p| <= |s| && p == s[..|p|] && !Includes(p, sub)
    ensures Includes(s, sub) <==> p != s
    ensures p != s ==> IndexOf(s, sub) == Some(|p|)
  {
    match IndexOf(s, sub)
    case None => s
    case Some(j) =>
      BeforeFirstExcludes(s, sub, j);
      s[..j]
  }

  /** The text before the first occurrence of `sub` does not include `sub`. */
  lemma BeforeFirstExcludes(s: string, sub: string, j: nat)
    requires |sub| > 0 && IndexOf(s, sub) == Some(j)
    ensures !Includes(s[..j], sub)
  {
    forall k | OccursAt(s[..j], sub, k) ensures OccursAt(s, sub, k) && k < j {
      assert s[..j][k..k + |sub|] == s[k..k + |sub|];
    }
  }

  /** `extractVaultName`: the vault name of a Key Vault URL, or `your-keyvault-name`. */
  function ExtractVaultName(keyVaultUrl: Option<string>): (r: string)
    ensures r != "" && !Includes(r, ".") && !Includes(r, "//")
    ensures IsVaultName(keyVaultUrl, DefaultVaultName, r)
  {
    DefaultHasNoSeparators();
    VaultNameOr(keyVaultUrl, DefaultVaultName)
  }

  lemma DefaultHasNoSeparators()
    ensures !Includes(DefaultVaultName, ".") && !Includes(DefaultVaultName, "//")
  {
    NoStartNoOccurrence(DefaultVaultName, ".");
    NoStartNoOccurrence(DefaultVaultName, "//");
  }

  /**
   * A URL `scheme//host.domain`, with no slash in the scheme or the host, no dot in
   * the host and no `//` in the domain (a path after the domain is allowed), gives
   * the host as the vault name: `https://myvault.vault.azure.net/` names `myvault`.
   */
  lemma VaultNameIsHost(scheme: string, host: string, domain: string)
    requires forall j :: 0 <= j < |scheme| ==> scheme[j] != '/'
    requires host != [] && forall j :: 0 <= j < |host| ==> host[j] != '/' && host[j] != '.'
    requires domain == [] || domain[0] == '.'
    requires !Includes(domain, "//")
    ensures ExtractVaultName(Some(scheme + "//" + host + domain)) == host
  {
    var url := scheme + "//" + host + domain;
    SchemeSeparator(scheme, host + domain);
    assert url == scheme + "//" + (host + domain);
    HostCut(host, domain);
  }

  /** In `scheme//rest` with no slash in the scheme, the first `//` follows the scheme. */
  lemma SchemeSeparator(scheme: string, rest: string)
    requires forall j :: 0 <= j < |scheme| ==> scheme[j] != '/'
    ensures IndexOf(scheme + "//" + rest, "//") == Some(|scheme|)
    ensures (scheme + "//" + rest)[|scheme| + 2..] == rest
  {
    var url := scheme + "//" + rest;
    var i := |scheme|;
    assert url[i..i + 2] == "//";
    assert forall j :: 0 <= j < i ==> url[j] == scheme[j];
    FirstOccurrence(url, "//", i);
  }

  /** Cutting `host.domain` at `//` and then at `.` leaves the host. */
  lemma HostCut(host: string, domain: string)
    requires host != [] && forall j :: 0 <= j < |host| ==> host[j] != '/' && host[j] != '.'
    requires domain == [] || domain[0] == '.'
    requires !Includes(domain, "//")
    ensures CutAtFirst(host + domain, "//") == host + domain
    ensures CutAtFirst(host + domain, ".") == host
  {
    var rest := host + domain;
    forall j | 0 <= j && j + 2 <= |rest| ensures !OccursAt(rest, "//", j) {
      if j < |host| {
        assert rest[j..j + 2][0] == host[j];
      } else {
        assert rest[j..j + 2] == domain[j - |host|..j - |host| + 2];
        assert !OccursAt(domain, "//", j - |host|);
      }
    }
    if domain == [] {
      assert rest == host;
      NoStartNoOccurrence(rest, ".");
    } else {
      assert rest[|host|..|host| + 1] == ".";
      FirstOccurrence(rest, ".", |host|);
      assert rest[..|host|] == host;
    }
  }

  /** The number of single quotes in `s`. */
  function Quotes(s: string): nat {
    if s == [] then 0 else (if s[0] == '\'' then 1 else 0) + Quotes(s[1..])
  }

  /** `value.replace(/'/g, "''")`: every single quote doubled, so the value fits in a PowerShell single-quoted string. */
  function Escape(s: string): (r: string)
    ensures |r| >= |s|
    ensures '\'' !in s ==> r == s
  {
    if s == [] then []
    else (if s[0] == '\'' then "''" else [s[0]]) + Escape(s[1..])
  }

  /**
   * How PowerShell reads the body of a single-quoted string under ASCII quoting:
   * each `''` stands for one `'`. The typographic quotes PowerShell also accepts
   * as single quotes are not modelled.
   */
  function Unescape(s: string): string
    decreases |s|
  {
    if s == [] then []
    else if |s| >= 2 && s[0] == '\'' && s[1] == '\'' then "'" + Unescape(s[2..])
    else [s[0]] + Unescape(s[1..])
  }

  /** Escaping adds exactly one character per quote. */
  lemma {:induction false} EscapeLength(s: string)
    ensures |Escape(s)| == |s| + Quotes(s)
  {
    if s != [] {
      EscapeLength(s[1..]);
    }
  }

  /** Reading the escaped value back gives the original value. */
  lemma {:induction false} UnescapeEscape(s: string)
    ensures Unescape(Escape(s)) == s
  {
    if s != [] {
      UnescapeEscape(s[1..]);
      var tail := Escape(s[1..]);
      if s[0] == '\'' {
        assert Escape(s) == "''" + tail;
        assert ("''" + tail)[2..] == tail;
      } else {
        assert Escape(s) == [s[0]] + tail;
        assert ([s[0]] + tail)[1..] == tail;
      }
    }
  }

  /** A secret with its value, as loaded from the source environment. */
  datatype SecretWithValue = SecretWithValue(name: string, value: string)

  /**
   * The parts of the generated script. The header states the target vault, the
   * number of secrets and, in its "Copy N secret(s) to ..." line, a second count;
   * each secret gets one `az keyvault secret set` block; the footer holds the
   * fixed list of useful commands for the vault.
   */
  datatype Segment =
    | Header(vaultName: string, secretCount: nat, copyCount: nat, targetEnvName: Option<string>)
    | SetSecret(number: nat, vaultName: string, name: string, quotedValue: string)
    | Footer(vaultName: string)

  /** The `secret set` block for the secret at position `index` (numbered from 1). */
  function SecretBlock(index: nat, secret: SecretWithValue, vaultName: string): Segment {
    SetSecret(index + 1, vaultName, secret.name, Escape(secret.value))
  }

  /** One `secret set` block per secret, in input order. */
  function SecretBlocks(secrets: seq<SecretWithValue>, vaultName: string): (blocks: seq<Segment>)
    ensures |blocks| == |secrets|
    ensures forall i :: 0 <= i < |secrets| ==> blocks[i] == SecretBlock(i, secrets[i], vaultName)
  {
    seq(|secrets|, i requires 0 <= i < |secrets| => SecretBlock(i, secrets[i], vaultName))
  }

  /** Number of `secret set` blocks in a script. */
  function SetCount(script: seq<Segment>): nat {
    if script == [] then 0 else (if script[0].SetSecret? then 1 else 0) + SetCount(script[1..])
  }

  lemma {:induction false} SetCountAppend(a: seq<Segment>, b: seq<Segment>)
    ensures SetCount(a + b) == SetCount(a) + SetCount(b)
  {
    if a == [] {
      assert a + b == b;
    } else {
      assert (a + b)[0] == a[0];
      assert (a + b)[1..] == a[1..] + b;
      SetCountAppend(a[1..], b);
    }
  }

  lemma {:induction false} SetCountOfBlocks(secrets: seq<SecretWithValue>, vaultName: string)
    ensures SetCount(SecretBlocks(secrets, vaultName)) == |secrets|
  {
    if secrets != [] {
      var n := |secrets| - 1;
      BlocksGrow(secrets, n, vaultName);
      assert secrets[..n + 1] == secrets;
      SetCountAppend(SecretBlocks(secrets[..n], vaultName), [SecretBlock(n, secrets[n], vaultName)]);
      SetCountOfBlocks(secrets[..n], vaultName);
    }
  }

  /** The blocks of one more secret are the earlier blocks and the new secret's block. */
  lemma BlocksGrow(secrets: seq<SecretWithValue>, n: nat, vaultName: string)
    requires n < |secrets|
    ensures SecretBlocks(secrets[..n + 1], vaultName)
      == SecretBlocks(secrets[..n], vaultName) + [SecretBlock(n, secrets[n], vaultName)]
  {
  }

  /**
   * `generateAzureCliCommands`: the header, then one block appended per secret in
   * a loop, then the footer.
   */
  method GenerateCommands(secretsWithValues: seq<SecretWithValue>, targetVaultName: string, targetEnvName: Option<string>)
    returns (commands: seq<Segment>)
    ensures commands == [Header(targetVaultName, |secretsWithValues|, |secretsWithValues|, targetEnvName)]
      + SecretBlocks(secretsWithValues, targetVaultName) + [Footer(targetVaultName)]
  {
    var header := Header(targetVaultName, |secretsWithValues|, |secretsWithValues|, targetEnvName);
    commands := [header];
    var index := 0;
    while index < |secretsWithValues|
      invariant 0 <= index <= |secretsWithValues|
      invariant commands == [header] + SecretBlocks(secretsWithValues[..index], targetVaultName)
    {
      var secret := secretsWithValues[index];
      BlocksGrow(secretsWithValues, index, targetVaultName);
      commands := commands + [SecretBlock(index, secret, targetVaultName)];
      index := index + 1;
    }
    assert secretsWithValues[..index] == secretsWithValues;
    commands := commands + [Footer(targetVaultName)];
  }

  /** The script that `generateAzureCliCommands` builds. */
  function Script(secretsWithValues: seq<SecretWithValue>, targetVaultName: string, targetEnvName: Option<string>): (script: seq<Segment>)
    ensures |script| == |secretsWithValues| + 2
    ensures script[0] == Header(targetVaultName, |secretsWithValues|, |secretsWithValues|, targetEnvName)
    ensures script[|script| - 1] == Footer(targetVaultName)
  {
    [Header(targetVaultName, |secretsWithValues|, |secretsWithValues|, targetEnvName)]
      + SecretBlocks(secretsWithValues, targetVaultName) + [Footer(targetVaultName)]
  }

  /**
   * Both counts in the header equal the number of `secret set` blocks, and the
   * i-th block sets the i-th secret to a value PowerShell reads back, under ASCII quoting, as exactly
   * that secret's value.
   */
  lemma ScriptAgreesWithSecrets(secrets: seq<SecretWithValue>, vaultName: string, envName: Option<string>)
    ensures var script := Script(secrets, vaultName, envName);
      && |script| == |secrets| + 2
      && script[0].Header? && script[0].secretCount == script[0].copyCount == SetCount(script)
      && forall i :: 0 <= i < |secrets| ==>
        && script[i + 1].SetSecret?
        && script[i + 1].number == i + 1
        && script[i + 1].name == secrets[i].name
        && Unescape(script[i + 1].quotedValue) == secrets[i].value
  {
    var script := Script(secrets, vaultName, envName);
    var blocks := SecretBlocks(secrets, vaultName);
    SetCountAppend([script[0]] + blocks, [Footer(vaultName)]);
    SetCountAppend([script[0]], blocks);
    SetCountOfBlocks(secrets, vaultName);
    forall i | 0 <= i < |secrets| ensures Unescape(script[i + 1].quotedValue) == secrets[i].value {
      assert script[i + 1] == blocks[i];
      UnescapeEscape(secrets[i].value);
    }
  }
}
