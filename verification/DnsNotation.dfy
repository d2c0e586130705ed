/** Conversion between dotted names and names made of labels (section 3.1 of RFC 1035), in place. */
module DnsNotation {
  import opened Wrappers
  import opened DnsCompression

  const DOT: Octet := 46

  /** The first dot of `url` from `i` on, or its end. */
  function NextDot(url: seq<Octet>, i: nat): (n: nat)
    requires i <= |url|
    ensures i <= n <= |url| && (n < |url| ==> url[n] == DOT) && forall j | i <= j < n :: url[j] != DOT
    decreases |url| - i
  {
    if i == |url| || url[i] == DOT then i else NextDot(url, i + 1)
  }

  /** Position `i` of the buffer, which holds the name one octet further on, is a separator. */
  predicate IsSeparator(url: seq<Octet>, i: nat)
    requires i <= |url|
  {
    i == 0 || url[i - 1] == DOT
  }

  predicate IsString(s: seq<Octet>) {
    forall i | 0 <= i < |s| :: s[i] != 0
  }

  /** The name in labels: each separator holds the length of the label behind it. */
  function ToLabels(url: seq<Octet>): (q: seq<Octet>)
    requires |url| <= 253
    ensures |q| == |url| + 2
  {
    seq(|url| + 2, i requires 0 <= i < |url| + 2 =>
      if i == |url| + 1 then 0
      else if IsSeparator(url, i) then NextDot(url, i) - i
      else url[i - 1])
  }

  /** `pico_dns_check_namelen`. */
  predicate GoodLength(n: nat) {
    2 < n < 256
  }

  /** `pico_dns_url_to_qname`. */
  function UrlToQname(url: seq<Octet>): (q: Option<seq<Octet>>)
    requires IsString(url)
  {
    if GoodLength(|url| + 2) then Some(ToLabels(url)) else None
  }

  /** Dots instead of the label lengths, from the one at `lbl` on. */
  function Dotted(t: seq<Octet>, lbl: nat): (d: seq<Octet>)
    ensures |d| == |t|
    decreases |t| - lbl
  {
    if lbl >= |t| then t else Dotted(t[lbl := DOT], lbl + t[lbl] + 1)
  }

  function LengthOf(s: seq<Octet>): (n: nat)
    ensures n <= |s| && (forall i | 0 <= i < n :: s[i] != 0) && (n < |s| ==> s[n] == 0)
  {
    if s == [] || s[0] == 0 then 0 else 1 + LengthOf(s[1..])
  }

  /** `pico_dns_qname_to_url`. */
  function QnameToUrl(q: seq<Octet>): Option<seq<Octet>> {
    var n := LengthOf(q);
    if GoodLength(n) then Some(Dotted(q[..n], 0)[1..]) else None
  }

  /** No label of the name is empty. */
  predicate NoEmptyLabel(url: seq<Octet>) {
    forall i | 0 <= i <= |url| :: IsSeparator(url, i) ==> i < |url| && url[i] != DOT
  }

  // ---------- Round trip ----------

  /** The string length of the labels tells whether there are empty ones. */
  lemma LabelsLength(url: seq<Octet>)
    requires |url| <= 253 && IsString(url)
    ensures NoEmptyLabel(url) <==> LengthOf(ToLabels(url)) == |url| + 1
    ensures !NoEmptyLabel(url) ==> LengthOf(ToLabels(url)) <= |url|
  {
    var q := ToLabels(url);
    if NoEmptyLabel(url) {
      forall i | 0 <= i <= |url|
        ensures q[i] != 0
      {
        if IsSeparator(url, i) {
          assert q[i] == NextDot(url, i) - i == NextDot(url, i + 1) - i;
        } else {
          assert q[i] == url[i - 1];
        }
      }
      assert q[|url| + 1] == 0;
      assert LengthOf(q) > |url| || q[LengthOf(q)] == 0;
    } else {
      var i :| 0 <= i <= |url| && IsSeparator(url, i) && !(i < |url| && url[i] != DOT);
      assert q[i] == 0;
    }
  }

  lemma Labelled(url: seq<Octet>, lbl: nat, n: nat)
    requires lbl <= n <= |url| <= 253 && IsSeparator(url, lbl) && NextDot(url, lbl) >= n && (n < |url| ==> url[n] == DOT)
    ensures NextDot(url, lbl) == n && ToLabels(url)[lbl] == n - lbl
    ensures forall j | lbl < j <= n :: !IsSeparator(url, j) && ToLabels(url)[j] == url[j - 1]
  {
  }

  /** Walking the labels puts the dots back; only separators change. */
  lemma {:induction false} DotsPutBack(url: seq<Octet>, t: seq<Octet>, lbl: nat)
    requires 0 < |url| <= 253 && NoEmptyLabel(url)
    requires |t| == |url| + 1 && (lbl == |t| || (lbl < |t| && IsSeparator(url, lbl)))
    requires forall i | 0 <= i < |t| :: t[i] == if i < lbl then ([DOT] + url)[i] else ToLabels(url)[i]
    ensures Dotted(t, lbl) == [DOT] + url
    decreases |t| - lbl
  {
    hide ToLabels;
    if lbl < |t| {
      var next := lbl + t[lbl] as int + 1;
      Labelled(url, lbl, NextDot(url, lbl));
      DotsPutBack(url, t[lbl := DOT], next);
    } else {
      assert t == [DOT] + url;
    }
  }

  /** Exactly which names come back: those of at least two characters without empty labels. */
  lemma NotationRoundTripsIff(url: seq<Octet>)
    requires IsString(url) && GoodLength(|url| + 2)
    ensures QnameToUrl(UrlToQname(url).value) == Some(url) <==> |url| >= 2 && NoEmptyLabel(url)
  {
    var q := ToLabels(url);
    LabelsLength(url);
    if NoEmptyLabel(url) {
      assert forall i | 0 <= i < |url| + 1 :: q[..|url| + 1][i] == q[i];
      DotsPutBack(url, q[..|url| + 1], 0);
      assert ([DOT] + url)[1..] == url;
    }
  }

  /** The name "a..b" does not: its empty label ends the string. */
  lemma EmptyLabelExample()
    ensures var url: seq<Octet> := [97, DOT, DOT, 98];
            && UrlToQname(url) == Some([1, 97, 0, 1, 98, 0]) && QnameToUrl([1, 97, 0, 1, 98, 0]) == None
  {
    var url: seq<Octet> := [97, DOT, DOT, 98];
    var q := ToLabels(url);
    assert NextDot(url, 3) == NextDot(url, 4) == 4 && NextDot(url, 2) == 2 && NextDot(url, 0) == NextDot(url, 1) == 1;
    assert q == [1, 97, 0, 1, 98, 0];
    assert q[0] == 1 && q[1] == 97 && q[2] == 0;
    assert q[0] != 0 && q[1] != 0 && LengthOf(q) <= 2 && q[LengthOf(q)] == 0;
  }

  lemma RootName(s: seq<Octet>)
    requires |s| == 1 && s[0] == 0
    ensures IsName(s)
  {
  }

  lemma OneMore(s: seq<Octet>, n: nat, rest: seq<Octet>)
    requires 0 < n < 64 && n + 1 < |s| && s[0] == n && rest == s[n + 1..] && IsName(rest)
    requires forall i | 1 <= i <= n :: s[i] != 0
    ensures IsName(s)
  {
  }

  lemma DotAhead(url: seq<Octet>, lbl: nat)
    requires lbl < |url| && url[lbl] != DOT
    ensures lbl < NextDot(url, lbl)
  {
    assert NextDot(url, lbl) == NextDot(url, lbl + 1);
  }

  lemma LastOfLabels(url: seq<Octet>)
    requires |url| <= 253
    ensures ToLabels(url)[|url| + 1] == 0
  {
  }

  lemma TailOf(q: seq<Octet>, lbl: nat, n: nat)
    requires lbl + n < |q|
    ensures forall i | 0 <= i < |q| - lbl :: q[lbl..][i] == q[lbl + i]
    ensures lbl + n + 1 <= |q| && q[lbl..][n + 1..] == q[lbl + n + 1..]
  {
  }

  lemma LabelOctets(url: seq<Octet>, lbl: nat)
    requires 0 < |url| <= 253 && IsString(url) && NoEmptyLabel(url)
    requires lbl == |url| + 1 || (lbl <= |url| && IsSeparator(url, lbl))
    ensures var s := ToLabels(url)[lbl..];
            if lbl == |url| + 1 then |s| == 1 && s[0] == 0
            else
              && var n := NextDot(url, lbl) - lbl;
              && s[0] == n && 0 < n && (forall i | 1 <= i <= n :: s[i] != 0)
              && n + 1 < |s| && s[n + 1..] == ToLabels(url)[lbl + n + 1..]
              && (lbl + n == |url| || IsSeparator(url, lbl + n + 1))
  {
    hide ToLabels;
    var q := ToLabels(url);
    if lbl <= |url| {
      DotAhead(url, lbl);
      var n := NextDot(url, lbl) - lbl;
      Labelled(url, lbl, lbl + n);
      TailOf(q, lbl, n);
    } else {
      LastOfLabels(url);
      TailOf(q, lbl, 0);
    }
  }

  /** The lengths chain to the terminator: the result is a name in labels. */
  lemma {:induction false} LabelsAreName(url: seq<Octet>, lbl: nat)
    requires 0 < |url| <= 253 && IsString(url) && NoEmptyLabel(url)
    requires lbl == |url| + 1 || (lbl <= |url| && IsSeparator(url, lbl))
    requires forall i | 0 <= i <= |url| && IsSeparator(url, i) :: NextDot(url, i) - i < 64
    ensures IsName(ToLabels(url)[lbl..])
    decreases |url| - lbl
  {
    hide IsName, ToLabels;
    var q := ToLabels(url);
    var s := q[lbl..];
    LabelOctets(url, lbl);
    if lbl <= |url| {
      var n := NextDot(url, lbl) - lbl;
      LabelsAreName(url, lbl + n + 1);
      OneMore(s, n, q[lbl + n + 1..]);
    } else {
      RootName(s);
    }
  }

  // ---------- In place ----------

  /** `pico_dns_name_to_dns_notation`, on a buffer that holds the name one octet further on. */
  method NameToDnsNotation(buf: array<Octet>, maxlen: nat, ghost url: seq<Octet>) returns (ok: bool)
    requires IsString(url) && |url| <= 253 && buf.Length == maxlen == |url| + 2
    requires buf[1..] == url + [0]
    modifies buf
    ensures ok <==> GoodLength(maxlen)
    ensures ok ==> buf[..] == ToLabels(url)
    ensures forall i | 0 < i < buf.Length && !(i <= |url| && url[i - 1] == DOT) :: buf[i] == old(buf[i])
  {
    ok := GoodLength(maxlen);
    if !ok {
      return;
    }
    forall i | 1 <= i < buf.Length
      ensures buf[i] == (url + [0])[i - 1]
    {
      assert buf[1..][i - 1] == buf[i];
    }
    var lbl, i := 0, 1;
    while buf[i] != 0
      invariant 0 <= lbl < i <= |url| + 1 && IsSeparator(url, lbl) && NextDot(url, lbl) >= i - 1
      invariant forall j | 0 <= j < lbl :: buf[j] == ToLabels(url)[j]
      invariant forall j | lbl < j < buf.Length :: buf[j] == old(buf[j])
      decreases |url| + 1 - i
    {
      if buf[i] == DOT {
        Labelled(url, lbl, i - 1);
        buf[lbl] := i - lbl - 1;
        lbl := i;
      }
      if i > maxlen {
        break;
      }
      i := i + 1;
    }
    Labelled(url, lbl, |url|);
    buf[lbl] := i - lbl - 1;
    assert buf[..] == ToLabels(url);
  }

  /** `pico_dns_notation_to_name`, on the first `n` octets of a buffer that is zero behind them. */
  method DnsNotationToName(buf: array<Octet>, n: nat)
    requires n <= buf.Length && forall i | 0 <= i < n :: buf[i] != 0
    requires n < buf.Length ==> buf[n] == 0
    modifies buf
    ensures buf[..n] == Dotted(old(buf[..n]), 0)
  {
    var lbl := 0;
    while lbl < n
      invariant Dotted(buf[..n], lbl) == Dotted(old(buf[..n]), 0)
      decreases n - lbl
    {
      var next := lbl + buf[lbl] + 1;
      ghost var t := buf[..n];
      buf[lbl] := DOT;
      assert buf[..n] == t[lbl := DOT];
      lbl := next;
    }
  }

  method ConvertUrl(url: array<Octet>) returns (q: Option<array<Octet>>)
    requires IsString(url[..])
    ensures UrlToQname(url[..]) == match q case None => None case Some(a) => Some(a[..])
  {
    if !GoodLength(url.Length + 2) {
      return None;
    }
    var n := url.Length;
    var buf := new Octet[n + 2](_ => 0);
    forall k | 0 <= k < n {
      buf[k + 1] := url[k];
    }
    assert buf[1..] == url[..] + [0];
    var _ := NameToDnsNotation(buf, n + 2, url[..]);
    q := Some(buf);
  }

  method ConvertQname(q: array<Octet>) returns (url: Option<seq<Octet>>)
    requires exists i :: 0 <= i < q.Length && q[i] == 0
    ensures url == QnameToUrl(q[..])
  {
    ghost var all := q[..];
    var n := 0;
    while q[n] != 0
      invariant 0 <= n < q.Length && n <= LengthOf(all)
      decreases q.Length - n
    {
      assert all[n] != 0;
      n := n + 1;
    }
    assert all[n] == 0;
    if !GoodLength(n) {
      return None;
    }
    var temp := new Octet[256](_ => 0);
    forall k | 0 <= k < n {
      temp[k] := q[k];
    }
    assert temp[..n] == all[..n];
    DnsNotationToName(temp, n);
    assert temp[1..n] == temp[..n][1..];
    url := Some(temp[1..n]);
    assert q[..] == all;
  }
}
