/** `init_html`: the server address given on the command line is normalised to a
    lower-case `http://…/` URL, and the placeholders of the embedded
    documentation page are filled in with it and with the version string. */
module DocTemplate {
  import opened Text

  const Version := "5.5.1rc/multiple-web-hooks"
  const Scheme := "http://"
  const SrvAddrTag := "$$srvaddr$$"
  const VersionTag := "$$version$$"

  /** What a normalised address looks like: lower case, with the scheme in front
      and a slash at the end. */
  predicate IsNormalized(a: string)
  {
    IsLower(a) && HasPrefix(a, Scheme) && HasSuffix(a, "/")
  }

  /** Lower-case the address, then add the scheme unless the lower-cased address
      already has it, then add a trailing slash unless there already is one. */
  function NormalizeAddress(srvaddr: string): (r: string)
    ensures IsNormalized(r)
    ensures var l := ToLower(srvaddr);
            var w := if HasPrefix(l, Scheme) then l else Scheme + l;
            (r == w || r == w + "/") && (HasSuffix(w, "/") ==> r == w)
  {
    var lowered := ToLower(srvaddr);
    var withScheme := if HasPrefix(lowered, Scheme) then lowered else Scheme + lowered;
    if HasSuffix(withScheme, "/") then withScheme else withScheme + "/"
  }

  /** The normalised addresses are exactly the fixed points of normalisation. */
  lemma NormalizeFixedPoint(a: string)
    ensures NormalizeAddress(a) == a <==> IsNormalized(a)
  {
    if IsNormalized(a) {
      assert ToLower(a) == a;
    }
  }

  /** Normalising twice is the same as normalising once: neither the scheme nor
      the slash is ever added a second time. */
  lemma NormalizeIdempotent(a: string)
    ensures NormalizeAddress(NormalizeAddress(a)) == NormalizeAddress(a)
  {
    NormalizeFixedPoint(NormalizeAddress(a));
  }

  /** The scheme test runs after lower-casing, so an upper-case `HTTP://` is
      recognised and the scheme is not doubled. */
  lemma NormalizeUpperCaseScheme(rest: string)
    ensures var r := NormalizeAddress("HTTP://" + rest);
            r == Scheme + ToLower(rest) || r == Scheme + ToLower(rest) + "/"
  {
    ToLowerAppend("HTTP://", rest);
    assert ToLower("HTTP://") == Scheme;
    var l := ToLower("HTTP://" + rest);
    assert l[..|Scheme|] == Scheme;
  }

  /** The page with the address placeholders filled in first and then the
      version placeholders. */
  function RenderDoc(doc: string, srvaddr: string): (r: string)
  {
    ReplaceAll(ReplaceAll(doc, SrvAddrTag, NormalizeAddress(srvaddr)), VersionTag, Version)
  }

  /** A page with neither placeholder comes back unchanged. */
  lemma RenderDocWithoutTags(doc: string, srvaddr: string)
    requires !Contains(doc, SrvAddrTag) && !Contains(doc, VersionTag)
    ensures RenderDoc(doc, srvaddr) == doc
  {
    ReplaceAllNoMatch(doc, SrvAddrTag, NormalizeAddress(srvaddr));
    ReplaceAllNoMatch(doc, VersionTag, Version);
  }

  /** An address placeholder surrounded by plain text becomes the normalised
      address. */
  lemma RenderDocAddress(a: string, b: string, srvaddr: string)
    requires '$' !in a && '$' !in b && '$' !in srvaddr
    ensures RenderDoc(a + SrvAddrTag + b, srvaddr) == a + NormalizeAddress(srvaddr) + b
  {
    var n := NormalizeAddress(srvaddr);
    ReplaceAllSplice(a, SrvAddrTag, b, n);
    var s := a + n + b;
    assert '$' !in n by {
      ToLowerKeepsNonLetter(srvaddr, '$');
    }
    assert !Contains(s, VersionTag) by {
      forall j: nat | j <= |s| ensures !OccursAt(s, j, VersionTag) {
        if j + |VersionTag| <= |s| {
          assert s[j..j + |VersionTag|][0] == s[j] != '$';
        }
      }
    }
    ReplaceAllNoMatch(s, VersionTag, Version);
  }

  /** A version placeholder surrounded by plain text becomes the version. */
  lemma RenderDocVersion(a: string, b: string, srvaddr: string)
    requires '$' !in a && '$' !in b
    ensures RenderDoc(a + VersionTag + b, srvaddr) == a + Version + b
  {
    var s := a + VersionTag + b;
    assert !Contains(s, SrvAddrTag) by {
      forall j: nat | j <= |s| ensures !OccursAt(s, j, SrvAddrTag) {
        if j + |SrvAddrTag| <= |s| {
          // a position where the window differs from the address placeholder
          var x := if j < |a| || j >= |a| + |VersionTag| then 0
                   else if j == |a| then 2
                   else if j == |a| + 1 then 1
                   else if j < |a| + 9 then 0
                   else if j == |a| + 9 then 9
                   else 1;
          assert s[j + x] != SrvAddrTag[x] by {
            if j + x < |a| {
              assert s[j + x] == a[j + x];
            } else if j + x < |a| + |VersionTag| {
              assert s[j + x] == VersionTag[j + x - |a|];
            } else {
              assert s[j + x] == b[j + x - |a| - |VersionTag|];
            }
          }
          assert s[j..j + |SrvAddrTag|][x] == s[j + x];
        }
      }
    }
    ReplaceAllNoMatch(s, SrvAddrTag, NormalizeAddress(srvaddr));
    ReplaceAllSplice(a, VersionTag, b, Version);
  }

  /** The placeholder itself, taken as an address, only gains the scheme and the
      slash. */
  lemma NormalizeVersionTag()
    ensures NormalizeAddress(VersionTag) == Scheme + VersionTag + "/"
  {
    assert IsLower(VersionTag);
    assert ToLower(VersionTag) == VersionTag;
    assert !HasPrefix(VersionTag, Scheme) by {
      assert VersionTag[0] != Scheme[0];
    }
    var w := Scheme + VersionTag;
    assert !HasSuffix(w, "/") by {
      assert w[|w| - 1] == '$';
    }
  }

  /** The text around the version placeholder of a normalised `$$version$$`
      address holds no `$`. */
  lemma AroundTagInAddress(a: string, b: string)
    requires '$' !in a && '$' !in b
    ensures '$' !in a + Scheme && '$' !in "/" + b
    ensures a + (Scheme + VersionTag + "/") + b == (a + Scheme) + VersionTag + ("/" + b)
    ensures (a + Scheme) + Version + ("/" + b) == a + Scheme + Version + "/" + b
  {
    assert forall i :: 0 <= i < |Scheme| ==> Scheme[i] != '$';
  }

  /** `ReplaceAllSplice` for the version placeholder, stated for a string
      already known to have that shape. */
  lemma ReplaceVersionTag(s: string, a: string, b: string)
    requires '$' !in a && '$' !in b
    requires s == a + VersionTag + b
    ensures ReplaceAll(s, VersionTag, Version) == a + Version + b
  {
    ReplaceAllSplice(a, VersionTag, b, Version);
  }

  /** The version is substituted after the address, so a version placeholder
      that arrives inside the address is filled in as well. */
  lemma RenderDocTagInsideAddress(a: string, b: string)
    requires '$' !in a && '$' !in b
    ensures RenderDoc(a + SrvAddrTag + b, VersionTag) == a + Scheme + Version + "/" + b
  {
    var n := Scheme + VersionTag + "/";
    NormalizeVersionTag();
    ReplaceAllSplice(a, SrvAddrTag, b, n);
    AroundTagInAddress(a, b);
    ReplaceVersionTag(a + n + b, a + Scheme, "/" + b);
  }
}
