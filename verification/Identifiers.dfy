// The client tokens that make creations idempotent, and the provider identifiers of machines.
module Identifiers {
  import opened Options

  // ---- Client tokens ----

  const MAX_TOKEN := 64

  // The last n characters of a string.
  function Last(s: string, n: nat): string {
    if |s| <= n then s else s[|s| - n..]
  }

  // The token of a named resource of the cluster uid: the end of "name-uid".
  function ClientToken(name: string, uid: string): string {
    var ct := name + "-" + uid;
    if |ct| > MAX_TOKEN then ct[|ct| - MAX_TOKEN..] else ct
  }

  function NatServiceClientToken(name: string, subregion: string, uid: string): string {
    if name != "" then ClientToken(name, uid) else subregion + "-" + uid
  }

  // What a token is made of: the whole identifier of the cluster when it is short enough to leave room
  // for the dash, and as much of the name as fits before it.
  lemma TokenParts(name: string, uid: string)
    ensures |ClientToken(name, uid)| <= 64
    ensures |uid| < 64 ==> ClientToken(name, uid) == Last(name, 63 - |uid|) + "-" + uid
    ensures |uid| >= 64 ==> ClientToken(name, uid) == Last(uid, 64)
  {
    var ct := name + "-" + uid;
    if |uid| >= 64 {
      assert ct[|ct| - 64..] == Last(uid, 64);
    } else if |ct| > 64 {
      assert ct[|ct| - 64..] == Last(name, 63 - |uid|) + "-" + uid;
    }
  }

  // Clusters whose identifiers have the same length can share a token exactly when their identifiers
  // agree on the last 64 characters: never, for different identifiers of at most 64 characters.
  lemma TokensSeparateClusters(uid1: string, uid2: string)
    requires |uid1| == |uid2|
    ensures (exists name1, name2 :: ClientToken(name1, uid1) == ClientToken(name2, uid2))
            <==> Last(uid1, 64) == Last(uid2, 64)
  {
    if name1, name2 :| ClientToken(name1, uid1) == ClientToken(name2, uid2) {
      TokenParts(name1, uid1);
      TokenParts(name2, uid2);
      if |uid1| < 64 {
        var t1, t2 := ClientToken(name1, uid1), ClientToken(name2, uid2);
        assert t1[|t1| - |uid1|..] == uid1 && t2[|t2| - |uid2|..] == uid2;
      }
    }
    if Last(uid1, 64) == Last(uid2, 64) {
      TokenParts("", uid1);
      TokenParts("", uid2);
      assert ClientToken("", uid1) == ClientToken("", uid2);
    }
  }

  // Within a cluster, two names share a token exactly when they agree on the characters that fit,
  // so names of at most 63 - |uid| characters never do unless they are equal.
  lemma TokensSeparateNames(name1: string, name2: string, uid: string)
    requires |uid| < 64
    ensures ClientToken(name1, uid) == ClientToken(name2, uid)
       <==> Last(name1, 63 - |uid|) == Last(name2, 63 - |uid|)
    ensures |name1| <= 63 - |uid| && |name2| <= 63 - |uid| && name1 != name2
            ==> ClientToken(name1, uid) != ClientToken(name2, uid)
  {
    TokenParts(name1, uid);
    TokenParts(name2, uid);
    var l1, l2 := Last(name1, 63 - |uid|), Last(name2, 63 - |uid|);
    var t1, t2 := ClientToken(name1, uid), ClientToken(name2, uid);
    assert t1[..|t1| - 1 - |uid|] == l1 && t2[..|t2| - 1 - |uid|] == l2;
  }

  // The token of a NAT service: like any other with a name, the subregion and the identifier without one, and
  // then it is not cut, so that it fits exactly when those two do.
  lemma NatTokenParts(name: string, subregion: string, uid: string)
    ensures var token := NatServiceClientToken(name, subregion, uid);
            && (|token| <= 64 <==> name != "" || |subregion| + |uid| <= 63)
            && (|uid| < 64 ==> uid <= token[|token| - |uid|..] && token[|token| - |uid| - 1] == '-')
            && (|uid| < 64 && name == "" ==> token[..|token| - |uid| - 1] == subregion)
            && (|uid| < 64 && name != "" ==> token[..|token| - |uid| - 1] == Last(name, 63 - |uid|))
  {
    TokenParts(name, uid);
  }

  // ---- Provider identifiers ----

  datatype ProviderID = ProviderID(original: string, cloudProvider: string, id: string)

  // The position of the first c in s, |s| if there is none.
  function IndexOf(s: string, c: char): (i: nat)
    ensures i <= |s| && c !in s[..i] && (i < |s| ==> s[i] == c)
  {
    if s == [] || s[0] == c then 0
    else
      var i := 1 + IndexOf(s[1..], c);
      assert s[..i] == [s[0]] + s[1..][..i - 1];
      i
  }

  // What follows the last c in s, s itself if there is none.
  function AfterLast(s: string, c: char): (r: string)
    ensures c !in r && |r| <= |s| && s[|s| - |r|..] == r
    ensures |r| < |s| ==> s[|s| - |r| - 1] == c
  {
    if s == [] || s[|s| - 1] == c then [] else AfterLast(s[..|s| - 1], c) + [s[|s| - 1]]
  }

  // The expression ^[^:]+://.*[^/]$ : a dot does not match a newline, a negated class does.
  predicate HasProviderForm(s: string) {
    var colon := IndexOf(s, ':');
    && 0 < colon
    && colon + 3 < |s|
    && s[colon..colon + 3] == "://"
    && s[|s| - 1] != '/'
    && '\n' !in s[colon + 3..|s| - 1]
  }

  function NewProviderID(s: string): Option<ProviderID> {
    if s == "" then None
    else if !HasProviderForm(s) then None
    else
      var parsed := ProviderID(s, s[..IndexOf(s, ':')], AfterLast(s, '/'));
      if parsed.cloudProvider != "" && parsed.id != "" then Some(parsed) else None
  }

  // The part of a machine scope that holds its provider identifier.
  class MachineScope {
    var providerID: Option<string>

    constructor ()
      ensures providerID == None
    {
      providerID := None;
    }

    method SetProviderID(subregionName: string, vmId: string)
      modifies this
      ensures providerID == Some(ProviderURL(subregionName, vmId))
      ensures GetInstanceID() == vmId
         <==> vmId == "" || ('/' !in vmId && '\n' !in subregionName && '\n' !in vmId[..|vmId| - 1])
    {
      providerID := Some("aws:///" + subregionName + "/" + vmId);
      InstanceRoundTrip(subregionName, vmId);
    }

    function GetInstanceID(): string
      reads this
    {
      InstanceOf(if providerID.Some? then providerID.value else "")
    }
  }

  function ProviderURL(subregionName: string, vmId: string): string {
    "aws:///" + subregionName + "/" + vmId
  }

  function InstanceOf(providerID: string): string {
    var parsed := NewProviderID(providerID);
    if parsed.Some? then parsed.value.id else ""
  }

  lemma {:induction false} AfterLastIs(a: string, b: string, c: char)
    requires c !in b
    ensures AfterLast(a + [c] + b, c) == b
    decreases |b|
  {
    var s := a + [c] + b;
    if b != [] {
      assert s[..|s| - 1] == a + [c] + b[..|b| - 1];
      AfterLastIs(a, b[..|b| - 1], c);
    }
  }

  lemma IndexIs(s: string, c: char, i: nat)
    requires i < |s| && s[i] == c && c !in s[..i]
    ensures IndexOf(s, c) == i
  {
    var j := IndexOf(s, c);
    assert forall k :: 0 <= k < i ==> s[..i][k] == s[k];
    assert forall k :: 0 <= k < j ==> s[..j][k] == s[k];
  }

  lemma URLForm(subregionName: string, vmId: string)
    requires vmId != ""
    ensures var s := ProviderURL(subregionName, vmId);
            && IndexOf(s, ':') == 3
            && (HasProviderForm(s)
                <==> vmId[|vmId| - 1] != '/' && '\n' !in subregionName && '\n' !in vmId[..|vmId| - 1])
  {
    var s := ProviderURL(subregionName, vmId);
    assert s[..3] == "aws";
    IndexIs(s, ':', 3);
    assert s[3..6] == "://";
    assert s[6..|s| - 1] == "/" + subregionName + "/" + vmId[..|vmId| - 1];
  }

  // Reading back the identifier of the instance gives the one that was set exactly when it is empty, or
  // when it has no slash and neither it, up to its last character, nor the subregion has a newline.
  lemma InstanceRoundTrip(subregionName: string, vmId: string)
    ensures InstanceOf(ProviderURL(subregionName, vmId)) == vmId
       <==> vmId == "" || ('/' !in vmId && '\n' !in subregionName && '\n' !in vmId[..|vmId| - 1])
  {
    var s := ProviderURL(subregionName, vmId);
    if vmId == "" {
      assert s[|s| - 1] == '/';
      assert !HasProviderForm(s);
    } else {
      URLForm(subregionName, vmId);
      if '/' in vmId {
        assert AfterLast(s, '/') != vmId;
      } else {
        assert s == ("aws:///" + subregionName) + ['/'] + vmId;
        AfterLastIs("aws:///" + subregionName, vmId, '/');
      }
    }
  }
}
