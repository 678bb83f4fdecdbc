/** Service and method of a full gRPC method name, as the OpenTelemetry interceptors take them apart. */
module MethodName {
  /** r is what precedes the first slash of s, or all of s. */
  predicate IsFirstPart(s: string, r: string) {
    '/' !in r && (r == s || r + "/" <= s)
  }

  /** r is what follows the last slash of s, or all of s. */
  predicate IsLastPart(s: string, r: string) {
    '/' !in r && (r == s || (|r| < |s| && s[|s| - |r| - 1..] == "/" + r))
  }

  function WithoutLeadingSlash(s: string): string {
    if |s| > 0 && s[0] == '/' then s[1..] else s
  }

  method ExtractService(fullMethod: string) returns (service: string)
    ensures IsFirstPart(WithoutLeadingSlash(fullMethod), service)
  {
    var name := fullMethod;
    if |name| > 0 && name[0] == '/' {
      name := name[1..];
    }
    for i := 0 to |name|
      invariant '/' !in name[..i]
    {
      if name[i] == '/' {
        assert name[..i + 1] == name[..i] + "/";
        return name[..i];
      }
      assert name[..i + 1] == name[..i] + [name[i]];
    }
    assert name[..|name|] == name;
    return name;
  }

  method ExtractMethod(fullMethod: string) returns (name: string)
    ensures IsLastPart(fullMethod, name)
  {
    for i := |fullMethod| downto 0
      invariant '/' !in fullMethod[i..]
    {
      if fullMethod[i] == '/' {
        assert fullMethod[i..] == "/" + fullMethod[i + 1..];
        return fullMethod[i + 1..];
      }
      assert fullMethod[i..] == [fullMethod[i]] + fullMethod[i + 1..];
    }
    return fullMethod;
  }

  function Slashes(s: string): nat {
    if s == [] then 0 else Slashes(s[1..]) + if s[0] == '/' then 1 else 0
  }

  lemma {:induction false} SlashesOf(a: string, b: string)
    ensures Slashes(a + b) == Slashes(a) + Slashes(b)
  {
    if a == [] {
      assert a + b == b;
    } else {
      assert (a + b)[1..] == a[1..] + b;
      SlashesOf(a[1..], b);
    }
  }

  lemma {:induction false} NoSlashes(s: string)
    ensures Slashes(s) == 0 <==> '/' !in s
  {
    if s != [] {
      NoSlashes(s[1..]);
      assert s == [s[0]] + s[1..];
    }
  }

  lemma LongerHasASlash(s: string, r: string, r': string)
    requires r == s || r + "/" <= s
    requires r' <= s && |r| < |r'|
    ensures '/' in r'
  {
    assert r'[|r|] == s[|r|] == (r + "/")[|r|];
  }

  lemma LongerEndHasASlash(s: string, r: string, r': string)
    requires |r| < |r'| <= |s| && s[|s| - |r'|..] == r' && s[|s| - |r| - 1] == '/'
    ensures '/' in r'
  {
    assert r'[|r'| - |r| - 1] == s[|s| - |r| - 1];
  }

  /** Neither part leaves anything open. */
  lemma FirstPartIsUnique(s: string, r: string, r': string)
    requires IsFirstPart(s, r) && IsFirstPart(s, r')
    ensures r == r'
  {
    assert r == s[..|r|] && r' == s[..|r'|];
    assert |r| >= |r'| by {
      if |r| < |r'| {
        LongerHasASlash(s, r, r');
      }
    }
    assert |r'| >= |r| by {
      if |r'| < |r| {
        LongerHasASlash(s, r', r);
      }
    }
  }

  lemma LastPartIsUnique(s: string, r: string, r': string)
    requires IsLastPart(s, r) && IsLastPart(s, r')
    ensures r == r'
  {
    LastPartIsASuffix(s, r);
    LastPartIsASuffix(s, r');
    if |r| < |r'| {
      LongerEndHasASlash(s, r, r');
    }
    if |r'| < |r| {
      LongerEndHasASlash(s, r', r);
    }
  }

  lemma LastPartIsASuffix(s: string, r: string)
    requires IsLastPart(s, r)
    ensures |r| <= |s| && s[|s| - |r|..] == r
    ensures |r| < |s| ==> s[|s| - |r| - 1] == '/'
  {
    if |r| < |s| {
      assert s[|s| - |r|..] == s[|s| - |r| - 1..][1..];
    }
  }

  /** Service and method put together again give the name exactly when it begins with a slash and has
      exactly one more. */
  lemma RoundTripExactly(fullMethod: string, service: string, name: string)
    requires IsFirstPart(WithoutLeadingSlash(fullMethod), service) && IsLastPart(fullMethod, name)
    ensures "/" + service + "/" + name == fullMethod <==>
              |fullMethod| > 0 && fullMethod[0] == '/' && Slashes(fullMethod) == 2
  {
    if "/" + service + "/" + name == fullMethod {
      SlashesOf("/" + service + "/", name);
      SlashesOf("/" + service, "/");
      SlashesOf("/", service);
      NoSlashes(service);
      NoSlashes(name);
    }
    if |fullMethod| > 0 && fullMethod[0] == '/' && Slashes(fullMethod) == 2 {
      TwoParts(fullMethod, service, name);
    }
  }

  lemma TwoParts(fullMethod: string, service: string, name: string)
    requires |fullMethod| > 0 && fullMethod[0] == '/' && Slashes(fullMethod) == 2
    requires IsFirstPart(WithoutLeadingSlash(fullMethod), service) && IsLastPart(fullMethod, name)
    ensures "/" + service + "/" + name == fullMethod
  {
    var rest := fullMethod[1..];
    NoSlashes(rest);
    NoSlashes(service);
    hide Slashes;
    assert service + "/" <= rest;
    var last := rest[|service| + 1..];
    assert rest == (service + "/") + last;
    SlashesOf(service + "/", last);
    SlashesOf(service, "/");
    OneSlash();
    NoSlashes(last);
    AsLastPart(fullMethod, service, last);
    LastPartIsUnique(fullMethod, last, name);
  }

  /** Of a name built from a service and a method without slashes, these are the parts. */
  lemma BuiltNameComesApart(service: string, name: string, service': string, name': string)
    requires '/' !in service && '/' !in name
    requires IsFirstPart(WithoutLeadingSlash("/" + service + "/" + name), service')
    requires IsLastPart("/" + service + "/" + name, name')
    ensures service' == service && name' == name
  {
    var built := "/" + service + "/" + name;
    assert built[1..] == (service + "/") + name;
    AsLastPart(built, service, name);
    LastPartIsUnique(built, name, name');
    FirstPartIsUnique(built[1..], service, service');
  }

  lemma OneSlash()
    ensures Slashes("/") == 1
  {
  }

  lemma AsLastPart(fullMethod: string, service: string, last: string)
    requires |fullMethod| > 0 && fullMethod[0] == '/' && fullMethod[1..] == (service + "/") + last && '/' !in last
    ensures fullMethod == "/" + service + "/" + last && IsLastPart(fullMethod, last)
  {
    assert fullMethod == "/" + ((service + "/") + last) == ("/" + service) + ("/" + last);
    assert |("/" + service)| == |fullMethod| - |last| - 1;
  }
}
