/** The path rewriter as it runs: two loops over arrays of segments, the second fed by the
    path that the first has joined. */
module NamespaceRoundTripper {
  import opened Strings
  import opened PathSegments
  import opened MappingManagers
  import MappingProtocol
  import opened Requests
  import opened Transports

  method SplitPath(path: string) returns (parts: array<string>)
    ensures fresh(parts) && parts[..] == Split(path, '/')
  {
    var segments := Split(path, '/');
    parts := new string[|segments|](i requires 0 <= i < |segments| => segments[i]);
  }

  method JoinPath(parts: array<string>) returns (fullPath: string)
    ensures fullPath == JoinedPath(parts[..])
  {
    var filtered: seq<string> := [];
    for i := 0 to parts.Length
      invariant filtered == NonEmpty(parts[..i])
    {
      assert parts[..i + 1] == parts[..i] + [parts[i]];
      NonEmptyAppend(parts[..i], [parts[i]]);
      assert [parts[i]][1..] == [];
      if parts[i] != "" {
        filtered := filtered + [parts[i]];
      }
    }
    assert parts[..parts.Length] == parts[..];
    fullPath := Join(filtered, "/");
    if !HasPrefix(fullPath, "/") {
      fullPath := "/" + fullPath;
    }
  }

  /** The segments, and the suffix, when the first loop has passed `i` of them. */
  ghost function ClearedUpTo(parts: seq<string>, i: nat): seq<string> {
    var t := TenantAt(parts);
    if t < i && Tenant(parts) != "" then parts[t := ""] else parts
  }

  ghost function SuffixUpTo(parts: seq<string>, i: nat): string {
    if TenantAt(parts) < i then Tenant(parts) else ""
  }

  lemma FirstStageStep(parts: seq<string>, i: nat)
    requires i < |parts|
    ensures "api" in parts[..i + 1] <==> "api" in parts[..i] || parts[i] == "api"
    ensures ClearedUpTo(parts, i)[i] == parts[i]
    ensures if SuffixUpTo(parts, i) == "" && "api" !in parts[..i + 1]
            then ClearedUpTo(parts, i + 1) == ClearedUpTo(parts, i)[i := ""] && SuffixUpTo(parts, i + 1) == parts[i]
            else ClearedUpTo(parts, i + 1) == ClearedUpTo(parts, i) && SuffixUpTo(parts, i + 1) == SuffixUpTo(parts, i)
  {
    assert parts[..i + 1] == parts[..i] + [parts[i]];
    var t := TenantAt(parts);
    if t < i {
      assert parts[..i + 1][t] == parts[t];
    } else {
      forall k | 0 <= k < i ensures parts[k] != "api" {}
      assert "api" !in parts[..i];
      if parts[i] == "" {
        assert parts[i := ""] == parts;
      }
    }
  }

  lemma FirstStageEnds(parts: seq<string>, table: map<string, string>)
    ensures var n := IndexOf(parts, "namespaces");
            && (n < |parts| ==> SuffixUpTo(parts, n + 1) == Tenant(parts))
            && (n < |parts| ==> ClearedUpTo(parts, n + 1) == ClearedUpTo(parts, |parts|))
            && Rewritten(parts, table) ==
                 if n + 1 < |parts| && Tenant(parts) in table
                 then ClearedUpTo(parts, n + 1)[n + 1 := table[Tenant(parts)]]
                 else ClearedUpTo(parts, |parts|)
  {
    var n, t := IndexOf(parts, "namespaces"), TenantAt(parts);
    if n < |parts| {
      TenantIsFirst(parts, parts, n);
    }
    EditInSteps(parts, t, Tenant(parts), n, table);
  }

  lemma EditInSteps(parts: seq<string>, t: nat, tenant: string, n: nat, table: map<string, string>)
    requires t < |parts| || tenant == ""
    ensures var cleared := if tenant != "" then parts[t := ""] else parts;
            Edited(parts, t, tenant, n, table) ==
              if n + 1 < |parts| && tenant in table then cleared[n + 1 := table[tenant]] else cleared
  {
  }

  lemma FirstAt(parts: seq<string>, i: nat)
    requires i < |parts| && parts[i] == "namespaces" && IndexOf(parts, "namespaces") >= i
    ensures IndexOf(parts, "namespaces") == i
  {
    var n := IndexOf(parts, "namespaces");
    assert forall k | 0 <= k < n :: parts[..n][k] == parts[k];
  }

  class CustomNamespaceRoundTripper {
    const manager: MappingManager
    var transport: Transport

    constructor (manager: MappingManager, transport: Transport)
      ensures this.manager == manager && this.transport == transport
    {
      this.manager := manager;
      this.transport := transport;
    }

    /** NewCustomNamespaceRoundTripper: no round tripper without a manager, that is, unless the first load succeeds. */
    static method New(parse: MappingProtocol.Parser, read: Option<string>, defaultTransport: Transport)
      returns (roundTripper: CustomNamespaceRoundTripper?)
      ensures roundTripper != null <==> Loadable(parse, read)
      ensures roundTripper != null ==>
                && fresh(roundTripper) && fresh(roundTripper.manager) && roundTripper.transport == defaultTransport
                && roundTripper.manager.parse == parse && roundTripper.manager.mappings == parse(read.value).value
    {
      var manager := MappingManager.New(parse, read);
      if manager == null {
        return null;
      }
      roundTripper := new CustomNamespaceRoundTripper(manager, defaultTransport);
    }

    /** The mapping table is consulted at most once, so one request never sees two tables. */
    method ModifyNamespaceInPath(path: string) returns (modified: string)
      modifies manager.log
      ensures modified == JoinedPath(Rewritten(Split(path, '/'), manager.mappings))
      ensures manager.log.lookups == old(manager.log.lookups)
              || manager.log.lookups == old(manager.log.lookups) + [(manager.mappings, Tenant(Split(path, '/')))]
    {
      ghost var original := Split(path, '/');
      ghost var n := IndexOf(original, "namespaces");
      FirstStageEnds(original, manager.mappings);
      var parts := SplitPath(path);
      var suffix, apiTokHit := "", false;
      for i := 0 to parts.Length
        invariant n >= i || n + 1 == parts.Length
        invariant apiTokHit <==> "api" in original[..i]
        invariant suffix == SuffixUpTo(original, i)
        invariant parts[..] == ClearedUpTo(original, i)
        invariant manager.log.lookups == old(manager.log.lookups)
      {
        FirstStageStep(original, i);
        var part := parts[i];
        assert part == parts[..][i] == original[i];
        if part == "api" {
          apiTokHit := true;
        }
        if suffix == "" && !apiTokHit {
          suffix := part;
          parts[i] := "";
        }
        if part == "namespaces" && i + 1 < parts.Length {
          FirstAt(original, i);
          var namespace, found := manager.GetNamespace(suffix);
          if found {
            parts[i + 1] := namespace;
          }
          assert parts[..] == Rewritten(original, manager.mappings);
          break;
        }
        if n == i {
          assert original[n] == "namespaces";
        }
      }
      assert parts[..] == Rewritten(original, manager.mappings);
      modified := JoinPath(parts);
    }

    /** Returns false where addRegionLabelSelectorInPath indexes `partsOfPath` out of range. The query changes as
        WithRegion says; in other words, only "labelSelector" does, and only for the labelled kinds. */
    method AddRegionLabelSelectorInPath(url: Url) returns (returned: bool)
      modifies url
      ensures var spec := WithRegion(old(url.path), old(url.query));
              && (returned <==> spec.Forwarded?)
              && url.path == (if returned then spec.path else old(url.path))
              && url.query == spec.query
      ensures IsSelecting(old(url.path), old(url.query), url.query)
    {
      OnlyLabelSelectorChanges(url.path, url.query);
      var parts := SplitPath(url.path);
      if parts.Length < 2 {
        return false;
      }
      var regionName := parts[1];
      parts[1] := "";
      assert parts[..] == Split(url.path, '/')[1 := ""];
      returned := LabelAndClear(parts, regionName, url);
      if returned {
        url.path := JoinPath(parts);
      }
    }

    /** The loop of addRegionLabelSelectorInPath; false where it indexes out of range. */
    method LabelAndClear(parts: array<string>, regionName: string, url: Url) returns (returned: bool)
      modifies parts, url`query
      ensures var scan := ScanFrom(old(parts[..]), 0, false);
              && (returned <==> scan.Scanned?) && (returned ==> parts[..] == scan.parts)
              && url.query == Selecting(old(url.query), regionName, scan.selected)
    {
      ghost var initial := parts[..];
      ghost var selected := false;
      ghost var spec := ScanFrom(initial, 0, false);
      var i := 0;
      while i < parts.Length
        invariant 0 <= i <= parts.Length == |initial|
        invariant parts[..] == initial
        invariant ScanFrom(initial, i, selected) == spec
        invariant url.query == Selecting(old(url.query), regionName, selected)
      {
        if parts[i] == "namespaces" {
          if parts.Length > i + 3 && parts[i + 3] != "" {
            if parts[i + 2] == "clusters" && parts[i + 3] == ALL_CLUSTERS {
              parts[i + 3] := "";
            }
            break;
          }
          if i + 2 >= parts.Length {
            return false;
          }
          if parts[i + 2] in LABELLED_KINDS {
            url.query := url.query["labelSelector" := [LABEL_SELECTOR_PREFIX + regionName]];
            selected := true;
          }
        }
        i := i + 1;
      }
      assert spec == Scanned(parts[..], selected);
      returned := true;
    }

    /** Everything before the request is handed to the next transport. */
    method RoundTrip(url: Url) returns (returned: bool)
      modifies url, manager.log
      ensures var spec := RoundTripped(old(url.path), old(url.query), manager.mappings);
              && (returned <==> spec.Forwarded?)
              && (returned ==> url.path == spec.path)
              && url.query == spec.query
      ensures |manager.log.lookups| <= |old(manager.log.lookups)| + 1
    {
      var modified := ModifyNamespaceInPath(url.path);
      url.path := modified;
      returned := AddRegionLabelSelectorInPath(url);
    }
  }
}
