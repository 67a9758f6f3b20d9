/** The contact formatter `toMailto`: a tracker contact `"Name <email>"`
    becomes the chat platform's mention link `<mailto:email|Name>`.

    The source matches the contact against `(.*[^<]) (<.*@{1}.*>)`, a
    regular expression without the global flag, and reads its two groups.
    Here that match is computed by hand in the order a backtracking matcher
    tries candidates: the leftmost start first, then, for the greedy `.*` of
    the first group, the latest split; the second group then ends at the
    last '>' that its `.*` can reach. */
module Contact {
  import opened Wrappers
  import opened Errors

  /** The characters that `.` does not match. (`[^<]` does match them.) */
  predicate IsLineTerminator(c: char)
  {
    c == '\n' || c == '\r' || c == '\U{2028}' || c == '\U{2029}'
  }

  /** The first line terminator at or after `p`, or `|s|`: how far a `.*`
      that starts at `p` can reach. */
  function LineEnd(s: string, p: nat): (e: nat)
    requires p <= |s|
    ensures p <= e <= |s|
    ensures forall q :: p <= q < e ==> !IsLineTerminator(s[q])
    ensures e < |s| ==> IsLineTerminator(s[e])
    decreases |s| - p
  {
    if p == |s| || IsLineTerminator(s[p]) then p else LineEnd(s, p + 1)
  }

  /** The greatest index in `[lo, hi)` that holds `c`. */
  function LastIndexOf(s: string, c: char, lo: nat, hi: nat): (r: Option<nat>)
    requires lo <= hi <= |s|
    ensures r.Some? ==> lo <= r.value < hi && s[r.value] == c
    ensures r.Some? ==> forall q :: r.value < q < hi ==> s[q] != c
    ensures r.None? ==> forall q :: lo <= q < hi ==> s[q] != c
    decreases hi - lo
  {
    if lo == hi then None
    else if s[hi - 1] == c then Some(hi - 1)
    else LastIndexOf(s, c, lo, hi - 1)
  }

  // ---------------------------------------------------------------------------
  // What the pattern matches, stated directly
  // ---------------------------------------------------------------------------

  /** `s[p..k]` is matched by the second group `<.*@{1}.*>`. */
  ghost predicate AddressMatch(s: string, p: nat, k: nat)
  {
    && p + 3 <= k <= |s|
    && s[p] == '<'
    && s[k - 1] == '>'
    && (exists m :: p < m < k - 1 && s[m] == '@')
    && forall q :: p < q < k - 1 ==> !IsLineTerminator(s[q])
  }

  /** The whole pattern matches `s[i..k]`, its first group being `s[i..q + 1]`
      (`.*` then one character other than '<'), followed by a space and the
      second group `s[q + 2..k]`. */
  ghost predicate ContactMatch(s: string, i: nat, q: nat, k: nat)
  {
    && i <= q
    && q + 1 < |s|
    && (forall t :: i <= t < q ==> !IsLineTerminator(s[t]))
    && s[q] != '<'
    && s[q + 1] == ' '
    && AddressMatch(s, q + 2, k)
  }

  /** Some match of the pattern has its first group end at `q` and its
      second group end at `k` (the shortest first group, `s[q]` alone). */
  ghost predicate ContactAt(s: string, q: nat, k: nat)
  {
    ContactMatch(s, q, q, k)
  }

  /** `s` contains a `" <…@…>"` segment after a character other than '<'. */
  ghost predicate HasContact(s: string)
  {
    exists q, k :: ContactAt(s, q, k)
  }

  // ---------------------------------------------------------------------------
  // The scan
  // ---------------------------------------------------------------------------

  /** Where the greedy match of `<.*@.*>` at `p` ends: just after the last
      '>' before the end of the line, provided an '@' comes before it. */
  function AddressEnd(s: string, p: nat): (r: Option<nat>)
    requires p <= |s|
    ensures r.Some? ==> p + 3 <= r.value <= |s|
  {
    if p < |s| && s[p] == '<' then
      var e := LineEnd(s, p + 1);
      match LastIndexOf(s, '>', p + 1, e)
      case None => None
      case Some(gt) =>
        if LastIndexOf(s, '@', p + 1, gt).Some? then Some(gt + 1) else None
    else None
  }

  /** The pattern can split at `q`: the first group ends with `s[q]`, a
      space follows, and the second group matches after it. */
  predicate SplitsAt(s: string, q: nat)
  {
    q + 2 <= |s| && s[q] != '<' && s[q + 1] == ' ' && AddressEnd(s, q + 2).Some?
  }

  /** The greatest `q` in `[lo, hi)` where the pattern can split: the
      greedy `.*` of the first group tries the longest run first. */
  function LastSplit(s: string, lo: nat, hi: nat): (r: Option<nat>)
    requires lo <= hi <= |s|
    ensures r.Some? ==> lo <= r.value < hi && SplitsAt(s, r.value)
    decreases hi - lo
  {
    if lo == hi then None
    else if SplitsAt(s, hi - 1) then Some(hi - 1)
    else LastSplit(s, lo, hi - 1)
  }

  /** Every split point in the range is found: `LastSplit` reports it or
      a greater one. */
  lemma {:induction false} LastSplitIsLast(s: string, lo: nat, hi: nat, q: nat)
    requires lo <= q < hi <= |s| && SplitsAt(s, q)
    ensures LastSplit(s, lo, hi).Some? && q <= LastSplit(s, lo, hi).value
    decreases hi - lo
  {
    if q < hi - 1 && !SplitsAt(s, hi - 1) {
      LastSplitIsLast(s, lo, hi - 1, q);
    }
  }

  /** The last index the first group can end at when it starts at `i`. */
  function SplitLimit(s: string, i: nat): (hi: nat)
    requires i < |s|
    ensures i < hi <= |s|
  {
    var e := LineEnd(s, i);
    if e < |s| then e + 1 else |s|
  }

  /** The match whose start is leftmost among starts at or after `i`:
      its start and the end of its first group. */
  function FirstMatch(s: string, i: nat): (r: Option<(nat, nat)>)
    requires i <= |s|
    ensures r.Some? ==> i <= r.value.0 < |s|
    ensures r.Some? ==> LastSplit(s, r.value.0, SplitLimit(s, r.value.0)) == Some(r.value.1)
    decreases |s| - i
  {
    if i == |s| then None
    else match LastSplit(s, i, SplitLimit(s, i))
      case Some(q) => Some((i, q))
      case None => FirstMatch(s, i + 1)
  }

  /** `toMailto`: "" for a missing or empty contact; otherwise the mention
      link built from the two groups of the match, the second with its
      angle brackets removed (`substr(1, length - 2)`); a failure where the
      source indexes the `null` of a failed match. */
  function ToMailto(str: Option<string>): (r: Result<string, Error>)
    ensures str == None || str == Some("") ==> r == Success("")
    ensures r.Failure? ==> r.error == MalformedContact
  {
    if str.None? || |str.value| == 0 then Success("")
    else if FirstMatch(str.value, 0).None? then Failure(MalformedContact)
    else Success(LinkAt(str.value, FirstMatch(str.value, 0).value.0, FirstMatch(str.value, 0).value.1))
  }

  /** The link built from the match that starts at `i` and whose first
      group ends at `q`. */
  function LinkAt(s: string, i: nat, q: nat): string
    requires i <= q && q + 2 <= |s| && AddressEnd(s, q + 2).Some?
  {
    MailtoLink(s[i..q + 1], s[q + 2..AddressEnd(s, q + 2).value])
  }

  /** The mention link of a name and a bracketed address: the address
      loses its first and last character (`substr(1, length - 2)`). */
  function MailtoLink(name: string, address: string): string
    requires |address| >= 2
  {
    "<mailto:" + address[1..|address| - 1] + "|" + name + ">"
  }

  // ---------------------------------------------------------------------------
  // The scan finds what the pattern matches
  // ---------------------------------------------------------------------------

  /** The end `AddressEnd` reports is a match of the second group. */
  lemma AddressEndSound(s: string, p: nat)
    requires p <= |s| && AddressEnd(s, p).Some?
    ensures AddressMatch(s, p, AddressEnd(s, p).value)
  {
    var e := LineEnd(s, p + 1);
    var gt := LastIndexOf(s, '>', p + 1, e).value;
    var m := LastIndexOf(s, '@', p + 1, gt).value;
    assert p < m < gt && s[m] == '@';
  }

  /** Every match of the second group at `p` ends at or before the end
      `AddressEnd` reports, which therefore exists. */
  lemma AddressEndGreatest(s: string, p: nat, k: nat)
    requires p <= |s| && AddressMatch(s, p, k)
    ensures AddressEnd(s, p).Some? && k <= AddressEnd(s, p).value
  {
    var e := LineEnd(s, p + 1);
    assert k - 1 < e;
    var m :| p < m < k - 1 && s[m] == '@';
    var gt := LastIndexOf(s, '>', p + 1, e);
    assert gt.Some? && k - 1 <= gt.value;
    assert LastIndexOf(s, '@', p + 1, gt.value).Some?;
  }

  /** A match with its first group from `i` to `q` is a split the scan
      from `i` considers. */
  lemma MatchIsSplit(s: string, i: nat, q: nat, k: nat)
    requires ContactMatch(s, i, q, k)
    ensures i < |s| && q < SplitLimit(s, i) && SplitsAt(s, q)
  {
    AddressEndGreatest(s, q + 2, k);
    var e := LineEnd(s, i);
    assert q <= e;
  }

  /** A start where the first group can split is found, or an earlier one. */
  lemma {:induction false} FirstMatchFindsSplit(s: string, i: nat, i': nat)
    requires i <= i' < |s| && LastSplit(s, i', SplitLimit(s, i')).Some?
    ensures FirstMatch(s, i).Some? && FirstMatch(s, i).value.0 <= i'
    decreases i' - i
  {
    var here := LastSplit(s, i, SplitLimit(s, i));
    if here.Some? {
      assert FirstMatch(s, i) == Some((i, here.value));
    } else {
      assert i != i';
      FirstMatchFindsSplit(s, i + 1, i');
      assert FirstMatch(s, i) == FirstMatch(s, i + 1);
    }
  }

  /** A match that starts at or after `i` is found, at its start or earlier. */
  lemma FirstMatchFinds(s: string, i: nat, i': nat, q: nat, k: nat)
    requires i <= i' && ContactMatch(s, i', q, k)
    ensures FirstMatch(s, i).Some? && FirstMatch(s, i).value.0 <= i'
  {
    MatchIsSplit(s, i', q, k);
    LastSplitIsLast(s, i', SplitLimit(s, i'), q);
    FirstMatchFindsSplit(s, i, i');
  }

  /** The scan passes over starts where the first group cannot split. */
  lemma {:induction false} NoSplitBeforeFirst(s: string, i: nat, i': nat)
    requires i <= i' < |s| && FirstMatch(s, i).Some? && i' < FirstMatch(s, i).value.0
    ensures LastSplit(s, i', SplitLimit(s, i')).None?
    decreases i' - i
  {
    if i < i' {
      assert LastSplit(s, i, SplitLimit(s, i)).None?;
      NoSplitBeforeFirst(s, i + 1, i');
    }
  }

  /** The scan stops at the first start that has a match. */
  lemma FirstMatchIsLeftmost(s: string, i: nat, i': nat, q: nat, k: nat)
    requires i <= i' < |s| && FirstMatch(s, i).Some? && i' < FirstMatch(s, i).value.0
    ensures !ContactMatch(s, i', q, k)
  {
    NoSplitBeforeFirst(s, i, i');
    if ContactMatch(s, i', q, k) {
      MatchIsSplit(s, i', q, k);
      LastSplitIsLast(s, i', SplitLimit(s, i'), q);
    }
  }

  /** The split the scan from `i` picks is a match starting at `i`. */
  lemma ScanFindsMatch(s: string, i: nat, q: nat)
    requires i < |s| && LastSplit(s, i, SplitLimit(s, i)) == Some(q)
    ensures AddressEnd(s, q + 2).Some?
    ensures ContactMatch(s, i, q, AddressEnd(s, q + 2).value)
  {
    var k := AddressEnd(s, q + 2).value;
    AddressEndSound(s, q + 2);
    assert q <= LineEnd(s, i);
  }

  /** No match from `i` has a longer first group than the scan's split. */
  lemma NoLongerFirstGroup(s: string, i: nat, q: nat, q': nat, k: nat)
    requires i < |s| && LastSplit(s, i, SplitLimit(s, i)) == Some(q) && q < q'
    ensures !ContactMatch(s, i, q', k)
  {
    if ContactMatch(s, i, q', k) {
      MatchIsSplit(s, i, q', k);
      LastSplitIsLast(s, i, SplitLimit(s, i), q');
    }
  }

  /** No match of the second group at `p` is longer than the scan's. */
  lemma NoLongerSecondGroup(s: string, p: nat, k: nat)
    requires p <= |s| && AddressEnd(s, p).Some? && AddressEnd(s, p).value < k
    ensures !AddressMatch(s, p, k)
  {
    if AddressMatch(s, p, k) {
      AddressEndGreatest(s, p, k);
    }
  }

  /** What the scan reports is the match a backtracking matcher returns:
      among all matches of the pattern, the one with the leftmost start,
      then the longest first group, then the longest second group. */
  lemma FirstMatchIsPreferred(s: string, i: nat, q: nat)
    requires FirstMatch(s, 0) == Some((i, q))
    ensures AddressEnd(s, q + 2).Some?
    ensures ContactMatch(s, i, q, AddressEnd(s, q + 2).value)
    ensures forall i': nat, q': nat, k': nat :: i' < i ==> !ContactMatch(s, i', q', k')
    ensures forall q': nat, k': nat :: q < q' ==> !ContactMatch(s, i, q', k')
    ensures forall k': nat :: AddressEnd(s, q + 2).value < k' ==> !ContactMatch(s, i, q, k')
  {
    ScanFindsMatch(s, i, q);
    forall i': nat, q': nat, k': nat | i' < i
      ensures !ContactMatch(s, i', q', k')
    {
      FirstMatchIsLeftmost(s, 0, i', q', k');
    }
    forall q': nat, k': nat | q < q'
      ensures !ContactMatch(s, i, q', k')
    {
      NoLongerFirstGroup(s, i, q, q', k');
    }
    forall k': nat | AddressEnd(s, q + 2).value < k'
      ensures !ContactMatch(s, i, q, k')
    {
      NoLongerSecondGroup(s, q + 2, k');
    }
  }

  /** `toMailto` fails exactly on the non-empty contacts that contain no
      `" <…@…>"` segment after a character other than '<'. */
  lemma ToMailtoFailsIff(s: string)
    requires s != ""
    ensures ToMailto(Some(s)).Failure? <==> !HasContact(s)
  {
    if HasContact(s) {
      var q, k :| ContactAt(s, q, k);
      FirstMatchFinds(s, 0, q, q, k);
    } else if FirstMatch(s, 0).Some? {
      var (i, q) := FirstMatch(s, 0).value;
      ScanFindsMatch(s, i, q);
      var k := AddressEnd(s, q + 2).value;
      assert ContactAt(s, q, k);
    }
  }

  /** The scan splits such a contact after the name, and the second group
      runs to the end. */
  lemma RoundTripMatch(name: string, address: string)
    requires name != "" && name[|name| - 1] != '<'
    requires forall j :: 0 <= j < |name| ==> !IsLineTerminator(name[j])
    requires '@' in address
    requires forall j :: 0 <= j < |address| ==> address[j] != ' ' && address[j] != '>' && !IsLineTerminator(address[j])
    ensures var s := name + " " + ("<" + address + ">");
            && FirstMatch(s, 0) == Some((0, |name| - 1))
            && AddressEnd(s, |name| + 1) == Some(|s|)
  {
    var s := name + " " + ("<" + address + ">");
    var q0 := |name| - 1;
    var at :| 0 <= at < |address| && address[at] == '@';
    assert s[q0 + 3 + at] == '@';
    assert AddressMatch(s, q0 + 2, |s|);
    assert ContactMatch(s, 0, q0, |s|);
    FirstMatchFinds(s, 0, 0, q0, |s|);
    var (i, q) := FirstMatch(s, 0).value;
    FirstMatchIsPreferred(s, i, q);
    assert i == 0 && q == q0;
  }

  /** The link is built from the scan's match: its first group and its
      second group. */
  lemma ToMailtoOfMatch(s: string, i: nat, q: nat, k: nat)
    requires FirstMatch(s, 0) == Some((i, q)) && AddressEnd(s, q + 2) == Some(k)
    ensures i <= q && q + 4 <= k <= |s|
    ensures ToMailto(Some(s)) == Success(MailtoLink(s[i..q + 1], s[q + 2..k]))
  {
    assert ToMailto(Some(s)) == Success(LinkAt(s, i, q));
  }

  /** The two groups of a contact written as name, space, bracketed address. */
  lemma ContactGroups(name: string, address: string)
    ensures var s := name + " " + ("<" + address + ">");
            && s[0..|name|] == name
            && s[|name| + 1..|s|] == "<" + address + ">"
  {
  }

  /** The brackets around an address are dropped from the link. */
  lemma MailtoLinkOfBracketed(name: string, address: string)
    ensures MailtoLink(name, "<" + address + ">") == "<mailto:" + address + "|" + name + ">"
  {
    var bracketed := "<" + address + ">";
    assert bracketed[1..|bracketed| - 1] == address;
  }

  /** A contact without line terminators in its name, with a name that does
      not end in '<', and with an address that holds an '@' but no space,
      '>' or line terminator, round-trips into the mention link. */
  lemma ToMailtoRoundTrip(name: string, address: string)
    requires name != "" && name[|name| - 1] != '<'
    requires forall j :: 0 <= j < |name| ==> !IsLineTerminator(name[j])
    requires '@' in address
    requires forall j :: 0 <= j < |address| ==> address[j] != ' ' && address[j] != '>' && !IsLineTerminator(address[j])
    ensures ToMailto(Some(name + " <" + address + ">")) == Success("<mailto:" + address + "|" + name + ">")
  {
    var s := name + " " + ("<" + address + ">");
    assert name + " <" + address + ">" == s;
    RoundTripMatch(name, address);
    ToMailtoOfMatch(s, 0, |name| - 1, |s|);
    ContactGroups(name, address);
    MailtoLinkOfBracketed(name, address);
  }
}
