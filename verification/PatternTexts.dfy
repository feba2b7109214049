/**
 Canonical texts and url parts spelled out: what becomes of one word, and what counts as the
 domain of a url.
 */
module PatternTexts {
  import opened Characters
  import opened Pattern
  import opened TextLines
  import opened Wrappers

  // ----------------------------------------------------------------------------- one word

  predicate HttpAt(w: string, i: nat) {
    i + 4 <= |w| && w[i..i + 4] == "http"
  }

  /** "http" stands at `k` and nowhere before, or nowhere at all when `k` is the length. */
  ghost predicate FirstHttp(w: string, k: nat) {
    && k <= |w| && (k < |w| ==> HttpAt(w, k))
    && forall i: nat :: i < k ==> !HttpAt(w, i)
  }

  lemma HttpAtStart(w: string)
    ensures HttpAt(w, 0) <==> StartsHttp(w)
  {
    if |w| >= 4 {
      assert w[0..4] == [w[0], w[1], w[2], w[3]];
    }
  }

  lemma {:induction false} HttpIndexIsFirst(w: string)
    ensures FirstHttp(w, HttpIndex(w))
  {
    HttpAtStart(w);
    if w == [] || StartsHttp(w) {
    } else {
      HttpIndexIsFirst(w[1..]);
      forall i: nat
        ensures HttpAt(w, i + 1) <==> HttpAt(w[1..], i)
      {
        if i + 5 <= |w| {
          assert w[i + 1..i + 5] == w[1..][i..i + 4];
        }
      }
      forall i: nat | i < HttpIndex(w)
        ensures !HttpAt(w, i)
      {
        if i > 0 {
          assert HttpAt(w, i) <==> HttpAt(w[1..], i - 1);
        }
      }
    }
  }

  /** The text with every digit replaced. */
  function Masked(s: string): string {
    seq(|s|, i requires 0 <= i < |s| => if '0' <= s[i] <= '9' then 'N' else s[i])
  }

  /** The canonical form of a word is its part before the first "http" with digits as "N", and the
      marker if there is an "http". */
  lemma {:induction false} WordRendered(w: string, k: nat)
    requires w != [] && Spaceless(w) && NoCapitals(w) && FirstHttp(w, k)
    ensures Canonical(w) == Masked(w[..k]) + (if k < |w| then "<URL>" else "")
  {
    HttpIndexIsFirst(w);
    assert HttpIndex(w) == k;
    ShapeForm(w);
    assert Mask(w[..k]) == Masked(w[..k]);
    CanonicalIsJoinedShapes(w);
    WordsOf(w, []);
    assert w + [] == w;
    assert Shapes([w]) == [Shape(w)];
  }

  // --------------------------------------------------------------------------- the domain

  lemma {:induction false} SchemeEndAt(scheme: string, rest: string)
    requires ':' !in scheme
    ensures SchemeEnd(scheme + "://" + rest) == |scheme|
  {
    var s := scheme + "://" + rest;
    if scheme == [] {
      assert s[..3] == "://";
    } else {
      assert s[0] == scheme[0] && s[..3][0] == s[0];
      assert s[1..] == scheme[1..] + "://" + rest;
      SchemeEndAt(scheme[1..], rest);
    }
  }

  /** No "://" starts inside `host`. */
  ghost predicate HostThenPath(host: string, tail: string) {
    && '/' !in host && (tail == [] || tail[0] == '/')
    && !(host != [] && host[|host| - 1] == ':' && |tail| > 1 && tail[1] == '/')
  }

  lemma {:induction false} SchemeEndBeyond(host: string, tail: string)
    requires HostThenPath(host, tail)
    ensures SchemeEnd(host + tail) >= |host|
  {
    var s := host + tail;
    if host == [] || |s| < 3 {
    } else {
      assert s[1..] == host[1..] + tail;
      assert s[..3][0] == s[0] && s[..3][1] == s[1] && s[..3][2] == s[2];
      SchemeEndBeyond(host[1..], tail);
    }
  }

  /** Of a url, the domain is what stands between the scheme and the path, or the end. */
  lemma DomainIsHost(scheme: string, host: string, tail: string)
    requires ':' !in scheme && HostThenPath(host, tail)
    ensures Domain(scheme + "://" + host + tail) == host
  {
    var url := scheme + "://" + host + tail;
    var rest := host + tail;
    assert url == scheme + "://" + rest;
    SchemeEndAt(scheme, rest);
    assert url[|scheme| + 3..] == rest;
    SchemeEndBeyond(host, tail);
    var segment := rest[..SchemeEnd(rest)];
    assert segment[..|host|] == host;
    assert forall i :: 0 <= i < |host| ==> segment[i] == host[i];
    assert |segment| > |host| ==> segment[|host|] == '/';
  }

  predicate SchemeAt(url: string, i: nat) {
    i + 3 <= |url| && url[i..i + 3] == "://"
  }

  /** Without "://" there is no domain. */
  lemma {:induction false} NoScheme(url: string)
    requires forall i: nat :: !SchemeAt(url, i)
    ensures SchemeEnd(url) == |url| && Domain(url) == ""
  {
    if |url| < 3 {
    } else {
      assert !SchemeAt(url, 0) && url[0..3] == url[..3];
      forall i: nat
        ensures !SchemeAt(url[1..], i)
      {
        assert !SchemeAt(url, i + 1);
        assert i + 4 <= |url| ==> url[1..][i..i + 3] == url[i + 1..i + 4];
      }
      NoScheme(url[1..]);
    }
  }
}
