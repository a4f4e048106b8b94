/**
 Tenant names of volume claims (src/csi/tenant_mapping.rs): a namespace and a claim name are
 joined by "--", and a name is parsed by cutting it at its first "--".

 The separator is not unambiguous for every namespace: "a-" and "b" print as "a---b", which
 parses as "a" and "-b". The lemmas say exactly for which namespaces parsing undoes printing,
 and that on names the other direction always holds.
 */
module TenantNames {
  import opened Prelude

  const SEPARATOR := "--"

  ghost predicate CutsAt(t: string, k: nat) {
    k + 2 <= |t| && t[k..k + 2] == SEPARATOR
  }

  ghost predicate HasSeparator(t: string) {
    exists k: nat :: CutsAt(t, k)
  }

  /** The namespaces that come back: no separator inside, and no dash that would join the separator. */
  ghost predicate Plain(namespace: string) {
    !HasSeparator(namespace) && (namespace == "" || namespace[|namespace| - 1] != '-')
  }

  function FormatTenantName(namespace: string, pvcName: string): string {
    namespace + SEPARATOR + pvcName
  }

  /** The place where a search from the left, starting at k, first meets the separator. */
  function FirstCut(t: string, k: nat): (r: Option<nat>)
    requires k <= |t|
    ensures r.Some? ==> k <= r.value && CutsAt(t, r.value)
    decreases |t| - k
  {
    if |t| < k + 2 then None
    else if t[k..k + 2] == SEPARATOR then Some(k)
    else FirstCut(t, k + 1)
  }

  function ParseTenantName(t: string): Option<(string, string)> {
    match FirstCut(t, 0)
    case None => None
    case Some(k) => Some((t[..k], t[k + 2..]))
  }

  lemma {:induction false} FirstCutIsFirst(t: string, k: nat, c: nat)
    requires k <= c && CutsAt(t, c)
    ensures FirstCut(t, k).Some? && FirstCut(t, k).value <= c
    decreases c - k
  {
    if k < c && t[k..k + 2] != SEPARATOR {
      FirstCutIsFirst(t, k + 1, c);
    }
  }

  /** A name is refused exactly when it holds no separator. */
  lemma ParseFailsExactly(t: string)
    ensures ParseTenantName(t).None? <==> !HasSeparator(t)
  {
    if HasSeparator(t) {
      var c: nat :| CutsAt(t, c);
      FirstCutIsFirst(t, 0, c);
    }
  }

  /** Printing a parsed name gives the name back, and the namespace parsed is always a plain one. */
  lemma ParseThenFormat(t: string)
    requires ParseTenantName(t).Some?
    ensures var (namespace, pvcName) := ParseTenantName(t).value;
            FormatTenantName(namespace, pvcName) == t && Plain(namespace)
  {
    var k := FirstCut(t, 0).value;
    var namespace := t[..k];
    assert t == t[..k] + t[k..k + 2] + t[k + 2..];
    if HasSeparator(namespace) {
      var c: nat :| CutsAt(namespace, c);
      assert t[c..c + 2] == namespace[c..c + 2];
      FirstCutIsFirst(t, 0, c);
      assert false;
    }
    if namespace != "" && namespace[k - 1] == '-' {
      assert t[k..k + 2][0] == '-';
      assert t[k - 1..k + 1] == SEPARATOR;
      FirstCutIsFirst(t, 0, k - 1);
      assert false;
    }
  }

  /** A cut of the printed name inside the namespace, or across its end, is what a plain one excludes. */
  lemma CutBeforeEnd(namespace: string, pvcName: string, c: nat)
    requires c < |namespace|
    requires CutsAt(FormatTenantName(namespace, pvcName), c)
    ensures !Plain(namespace)
  {
    var t := FormatTenantName(namespace, pvcName);
    assert t[c] == t[c..c + 2][0] == '-';
    if c + 2 <= |namespace| {
      assert namespace[c..c + 2] == t[c..c + 2];
      assert CutsAt(namespace, c);
    } else {
      assert namespace[|namespace| - 1] == t[c];
    }
  }

  /** Parsing undoes printing exactly for plain namespaces, whatever the claim name holds. */
  lemma FormatThenParse(namespace: string, pvcName: string)
    ensures ParseTenantName(FormatTenantName(namespace, pvcName)) == Some((namespace, pvcName))
            <==> Plain(namespace)
  {
    var t := FormatTenantName(namespace, pvcName);
    assert t[|namespace|..|namespace| + 2] == SEPARATOR;
    assert CutsAt(t, |namespace|);
    FirstCutIsFirst(t, 0, |namespace|);
    var k := FirstCut(t, 0).value;
    if k < |namespace| {
      CutBeforeEnd(namespace, pvcName, k);
      assert |t[..k]| < |namespace|;
    } else {
      assert t[..k] == namespace && t[k + 2..] == pvcName;
      ParseThenFormat(t);
    }
  }

  /** Two volume claims share a tenant name only if one of the namespaces is not plain. */
  lemma PlainNamesAreDistinct(n0: string, p0: string, n1: string, p1: string)
    requires Plain(n0) && Plain(n1)
    ensures FormatTenantName(n0, p0) == FormatTenantName(n1, p1) <==> n0 == n1 && p0 == p1
  {
    FormatThenParse(n0, p0);
    FormatThenParse(n1, p1);
  }
}
