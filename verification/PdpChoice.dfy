/** Which PDP context the driver takes over. */
module PdpChoice {
  import opened Common

  datatype PdpType = IPV4 | IPV6 | IPV4V6 | NON_IP

  /** One line of AT+CGDCONT? and of AT+CGACT?. */
  datatype Context = Context(cid: int, pdp: string, apn: string)
  datatype Activation = Activation(cid: int, active: int)

  datatype Choice = Choice(cid: int, pdp: string, apn: string)

  const NO_CHOICE := Choice(-1, "", "")

  function Lower(c: char): char {
    if 'A' <= c <= 'Z' then c - 'A' + 'a' else c
  }

  /** Equality as strcasecmp sees it. */
  predicate SameName(a: string, b: string) {
    |a| == |b| && forall i :: 0 <= i < |a| ==> Lower(a[i]) == Lower(b[i])
  }

  function ParsePdpType(s: string): PdpType {
    if s == "IPV4V6" then IPV4V6
    else if s == "IPV6" then IPV6
    else if s == "IP" || s == "IPV4" then IPV4
    else if s == "Non-IP" || s == "NONIP" then NON_IP
    else IPV4V6
  }

  /** The source's prefer_rank, for a context with the given APN. */
  function PreferRank(cid: int, active: bool, apn: string, wanted: Option<string>): int {
    if cid == 5 && active then 0
    else if cid == 6 && active then 1
    else if active then 2
    else if wanted.Some? && wanted.value != "" && SameName(apn, wanted.value) then 3
    else 10
  }

  /** The activity the last line about cid reports; contexts outside 0..6 count as inactive. */
  ghost predicate IsActive(lines: seq<Activation>, cid: int)
    decreases |lines|
  {
    if lines == [] then false
    else
      var last := lines[|lines| - 1];
      if last.cid == cid && 0 <= cid < 7 then last.active == 1
      else IsActive(lines[..|lines| - 1], cid)
  }

  /** How much the driver likes context c, by its own APN. */
  ghost function Rank(lines: seq<Activation>, c: Context, wanted: Option<string>): int {
    PreferRank(c.cid, IsActive(lines, c.cid), c.apn, wanted)
  }

  /** k is the first context of least rank, and that rank is an acceptable one. */
  ghost predicate FirstBest(lines: seq<Activation>, contexts: seq<Context>, wanted: Option<string>, k: int) {
    && 0 <= k < |contexts|
    && Rank(lines, contexts[k], wanted) < 7
    && (forall j :: 0 <= j < |contexts| ==> Rank(lines, contexts[k], wanted) <= Rank(lines, contexts[j], wanted))
    && (forall j :: 0 <= j < k ==> Rank(lines, contexts[k], wanted) < Rank(lines, contexts[j], wanted))
  }

  ghost predicate NoneAcceptable(lines: seq<Activation>, contexts: seq<Context>, wanted: Option<string>) {
    forall j :: 0 <= j < |contexts| ==> Rank(lines, contexts[j], wanted) >= 7
  }

  // ------------------------------------------------- the choice, from the listings alone

  /** The last line about cid says that it is active. */
  ghost predicate LastSaysActive(lines: seq<Activation>, cid: int) {
    exists i :: ActiveFrom(lines, cid, i)
  }

  ghost predicate ActiveFrom(lines: seq<Activation>, cid: int, i: int) {
    && 0 <= i < |lines| && lines[i] == Activation(cid, 1)
    && forall j :: i < j < |lines| ==> lines[j].cid != cid
  }

  lemma {:induction false} ActiveIff(lines: seq<Activation>, cid: int)
    ensures IsActive(lines, cid) <==> 0 <= cid <= 6 && LastSaysActive(lines, cid)
  {
    if lines != [] {
      var front, last := lines[..|lines| - 1], lines[|lines| - 1];
      ActiveIff(front, cid);
      if last.cid == cid {
        if i :| ActiveFrom(lines, cid, i) {
          assert i == |lines| - 1;
        }
        if last.active == 1 {
          assert ActiveFrom(lines, cid, |lines| - 1);
        }
      } else {
        if i :| ActiveFrom(lines, cid, i) {
          assert ActiveFrom(front, cid, i);
        }
        if i :| ActiveFrom(front, cid, i) {
          assert ActiveFrom(lines, cid, i);
        }
      }
    }
  }

  /** The same characters, but for the case of the letters A to Z. */
  ghost predicate SameUpToCase(a: string, b: string) {
    |a| == |b| && forall i :: 0 <= i < |a| ==> SameLetter(a[i] as int, b[i] as int)
  }

  ghost predicate SameLetter(a: int, b: int) {
    a == b || (65 <= a <= 90 && b == a + 32) || (65 <= b <= 90 && a == b + 32)
  }

  lemma SameNameIff(a: string, b: string)
    ensures SameName(a, b) <==> SameUpToCase(a, b)
  {
  }

  /** The context listed at place j is active. */
  ghost predicate ActiveAt(lines: seq<Activation>, contexts: seq<Context>, j: int) {
    0 <= j < |contexts| && 0 <= contexts[j].cid <= 6 && LastSaysActive(lines, contexts[j].cid)
  }

  /** It has the configured APN. */
  ghost predicate NamedAt(contexts: seq<Context>, wanted: Option<string>, j: int) {
    0 <= j < |contexts| && wanted.Some? && wanted.value != "" && SameUpToCase(contexts[j].apn, wanted.value)
  }

  /** The context at place k is context 5 if that is listed and active, else context 6 if that is, else the
      first active one, else the first with the configured APN. */
  ghost predicate Preferred(lines: seq<Activation>, contexts: seq<Context>, wanted: Option<string>, k: int) {
    && 0 <= k < |contexts|
    && if exists j :: ActiveAt(lines, contexts, j) && contexts[j].cid == 5 then
         contexts[k].cid == 5 && forall j :: 0 <= j < k ==> contexts[j].cid != 5
       else if exists j :: ActiveAt(lines, contexts, j) && contexts[j].cid == 6 then
         contexts[k].cid == 6 && forall j :: 0 <= j < k ==> contexts[j].cid != 6
       else if exists j :: ActiveAt(lines, contexts, j) then
         ActiveAt(lines, contexts, k) && forall j :: 0 <= j < k ==> !ActiveAt(lines, contexts, j)
       else
         NamedAt(contexts, wanted, k) && forall j :: 0 <= j < k ==> !NamedAt(contexts, wanted, j)
  }

  /** A rank below 7 is exactly one of these four cases. */
  lemma RankMeans(lines: seq<Activation>, contexts: seq<Context>, wanted: Option<string>, j: int)
    requires 0 <= j < |contexts|
    ensures var r, c, on := Rank(lines, contexts[j], wanted), contexts[j].cid, ActiveAt(lines, contexts, j);
            && (r == 0 <==> on && c == 5) && (r == 1 <==> on && c == 6) && (r == 2 <==> on && c != 5 && c != 6)
            && (r == 3 <==> !on && NamedAt(contexts, wanted, j)) && (r >= 7 <==> !on && !NamedAt(contexts, wanted, j))
            && (r < 7 ==> 0 <= r <= 3)
  {
    ActiveIff(lines, contexts[j].cid);
    if wanted.Some? {
      SameNameIff(contexts[j].apn, wanted.value);
    }
  }

  /** So least rank, first listed, is the choice as the listings alone give it. */
  lemma FirstBestIff(lines: seq<Activation>, contexts: seq<Context>, wanted: Option<string>, k: int)
    ensures FirstBest(lines, contexts, wanted, k) <==> Preferred(lines, contexts, wanted, k)
    ensures NoneAcceptable(lines, contexts, wanted) <==>
            forall j :: 0 <= j < |contexts| ==> !ActiveAt(lines, contexts, j) && !NamedAt(contexts, wanted, j)
  {
    forall j | 0 <= j < |contexts|
      ensures var r, c, on := Rank(lines, contexts[j], wanted), contexts[j].cid, ActiveAt(lines, contexts, j);
              && (r == 0 <==> on && c == 5) && (r == 1 <==> on && c == 6) && (r == 2 <==> on && c != 5 && c != 6)
              && (r == 3 <==> !on && NamedAt(contexts, wanted, j)) && (r >= 7 <==> !on && !NamedAt(contexts, wanted, j))
              && (r < 7 ==> 0 <= r <= 3)
    {
      RankMeans(lines, contexts, wanted, j);
    }
  }

  /** CIDs for which the scan stays inside its table of seven entries and apart from its -1 sentinel. */
  predicate ScanSafe(cid: int) {
    cid != -1 && !(7 <= cid < 100)
  }

  /** The rank the scan gives its incumbent with the APN of the context at hand compares against that
      context exactly as the incumbent's own rank does. */
  lemma StaleApnHarmless(cid: int, active: bool, apn: string, wanted: Option<string>, c: Context, cActive: bool)
    requires PreferRank(cid, active, apn, wanted) < 7
    ensures PreferRank(c.cid, cActive, c.apn, wanted) < PreferRank(cid, active, c.apn, wanted) <==>
            PreferRank(c.cid, cActive, c.apn, wanted) < PreferRank(cid, active, apn, wanted)
  {
  }

  method ReadActivations(lines: seq<Activation>) returns (cidActive: array<bool>)
    ensures fresh(cidActive) && cidActive.Length == 7
    ensures forall c :: 0 <= c < 7 ==> cidActive[c] == IsActive(lines, c)
  {
    cidActive := new bool[7](_ => false);
    for i := 0 to |lines|
      invariant forall c :: 0 <= c < 7 ==> cidActive[c] == IsActive(lines[..i], c)
    {
      assert lines[..i + 1][..i] == lines[..i];
      if 0 <= lines[i].cid < 7 {
        cidActive[lines[i].cid] := lines[i].active == 1;
      }
    }
    assert lines[..|lines|] == lines;
  }

  lemma {:induction false} InactiveOutside(lines: seq<Activation>, cid: int)
    requires !(0 <= cid < 7)
    ensures !IsActive(lines, cid)
  {
    if lines != [] {
      InactiveOutside(lines[..|lines| - 1], cid);
    }
  }

  /** The scan's view of activity, with its own bound on the index. */
  method ActiveEntry(cidActive: array<bool>, cid: int, bound: int, ghost lines: seq<Activation>) returns (active: bool)
    requires cidActive.Length == 7
    requires forall c :: 0 <= c < 7 ==> cidActive[c] == IsActive(lines, c)
    requires 0 <= cid < bound ==> cid < 7
    requires bound >= 7
    ensures active == IsActive(lines, cid)
  {
    if 0 <= cid < bound {
      active := cidActive[cid];
    } else {
      InactiveOutside(lines, cid);
      active := false;
    }
  }

  /** One pass that keeps the best context so far and finds the first of least rank, or none: the preferred one
      of the listings. */
  method SelectExistingCid(lines: seq<Activation>, contexts: seq<Context>, wanted: Option<string>) returns (r: Choice)
    requires forall c :: c in contexts ==> ScanSafe(c.cid)
    ensures r.cid == -1 <==> NoneAcceptable(lines, contexts, wanted)
    ensures r.cid == -1 ==> r == NO_CHOICE
    ensures r.cid != -1 ==> exists k :: FirstBest(lines, contexts, wanted, k) &&
                                      r == Choice(contexts[k].cid, contexts[k].pdp, contexts[k].apn)
    ensures r.cid == -1 <==>
            forall j :: 0 <= j < |contexts| ==> !ActiveAt(lines, contexts, j) && !NamedAt(contexts, wanted, j)
    ensures r.cid != -1 ==> exists k :: Preferred(lines, contexts, wanted, k) &&
                                      r == Choice(contexts[k].cid, contexts[k].pdp, contexts[k].apn)
  {
    var cidActive := ReadActivations(lines);
    r := NO_CHOICE;
    ghost var best := -1;
    for i := 0 to |contexts|
      invariant forall c :: 0 <= c < 7 ==> cidActive[c] == IsActive(lines, c)
      invariant r.cid == -1 ==> r == NO_CHOICE && NoneAcceptable(lines, contexts[..i], wanted)
      invariant r.cid != -1 ==> FirstBest(lines, contexts[..i], wanted, best) && ScanSafe(r.cid) &&
                                r == Choice(contexts[best].cid, contexts[best].pdp, contexts[best].apn)
    {
      var c := contexts[i];
      assert contexts[..i + 1] == contexts[..i] + [c];
      assert c in contexts;
      var isActive := ActiveEntry(cidActive, c.cid, 7, lines);
      var currentRank := PreferRank(c.cid, isActive, c.apn, wanted);
      var chosenRank := 7;
      if r.cid != -1 {
        var chosenActive := ActiveEntry(cidActive, r.cid, 100, lines);
        chosenRank := PreferRank(r.cid, chosenActive, c.apn, wanted);
        StaleApnHarmless(r.cid, chosenActive, r.apn, wanted, c, isActive);
      }
      if currentRank < chosenRank {
        r := Choice(c.cid, c.pdp, c.apn);
        best := i;
      }
    }
    assert contexts[..|contexts|] == contexts;
    FirstBestIff(lines, contexts, wanted, best);
  }

  /** The context taken over when the scan finds none: 5 if it is defined, else 6, else none. */
  method ReuseCid(contexts: seq<Context>) returns (reuse: int)
    ensures reuse == -1 || reuse == 5 || reuse == 6
    ensures reuse == 5 <==> exists c :: c in contexts && c.cid == 5
    ensures reuse == -1 <==> forall c :: c in contexts ==> c.cid != 5 && c.cid != 6
  {
    reuse := -1;
    for i := 0 to |contexts|
      invariant reuse == -1 || reuse == 5 || reuse == 6
      invariant reuse == 5 <==> exists c :: c in contexts[..i] && c.cid == 5
      invariant reuse == -1 <==> forall c :: c in contexts[..i] ==> c.cid != 5 && c.cid != 6
    {
      var cid := contexts[i].cid;
      assert contexts[..i + 1] == contexts[..i] + [contexts[i]];
      if (cid == 5 || cid == 6) && reuse < 0 {
        reuse := cid;
      } else if cid == 5 && reuse == 6 {
        reuse := cid;
      }
    }
    assert contexts[..|contexts|] == contexts;
  }

  /** What the modem answers to the commands of one get_context. */
  datatype Answers = Answers(scanOk: bool, lines: seq<Activation>, contexts: seq<Context>,
                             listing: seq<Context>, reconfigureOk: bool, isActive: bool)

  datatype Outcome = Ready | Failed | BaseClassDecides

  /** The context object's own view of its PDP context. */
  class CellularContext {
    const configured: PdpType
    const apn: Option<string>
    var cid: int
    var pdpType: PdpType
    var isActive: bool

    /** The APN of a context taken over without one configured. */
    var foundApn: string

    constructor (configured: PdpType, apn: Option<string>)
      ensures cid == -1 && pdpType == configured && !isActive && foundApn == ""
      ensures this.configured == configured && this.apn == apn
    {
      this.configured := configured;
      this.apn := apn;
      cid := -1;
      pdpType := configured;
      isActive := false;
      foundApn := "";
    }

    /** Takes over a context. Whatever type the modem reports, the configured one is used. The APN of the
        scan's choice is kept, also when the scan failed, unless it is empty or one is configured. */
    method GetContext(a: Answers) returns (outcome: Outcome)
      requires forall c :: c in a.contexts ==> ScanSafe(c.cid)
      modifies this
      ensures forall k :: a.scanOk && Preferred(a.lines, a.contexts, apn, k) && a.contexts[k].cid >= 0 ==>
                outcome == Ready && cid == a.contexts[k].cid
      ensures !a.scanOk || (forall k :: Preferred(a.lines, a.contexts, apn, k) ==> a.contexts[k].cid < 0) ==>
                if exists c :: c in a.listing && (c.cid == 5 || c.cid == 6) then
                  if a.reconfigureOk then
                    outcome == Ready && cid == if exists c :: c in a.listing && c.cid == 5 then 5 else 6
                  else outcome == Failed
                else outcome == BaseClassDecides
      ensures outcome == Ready ==> pdpType == configured && (a.isActive || old(isActive) <==> isActive)
      ensures outcome == Ready && apn.None? ==>
                forall k :: Preferred(a.lines, a.contexts, apn, k) && a.contexts[k].apn != "" ==>
                              foundApn == a.contexts[k].apn
      ensures foundApn != old(foundApn) ==>
                apn.None? && exists k :: Preferred(a.lines, a.contexts, apn, k) && foundApn == a.contexts[k].apn != ""
      ensures outcome != Ready ==> unchanged(this)
    {
      var selectedPdp := configured;
      var scan := SelectExistingCid(a.lines, a.contexts, apn);
      selectedPdp := ParsePdpType(scan.pdp);
      var selected := scan.cid;
      ScanIsFirstBest(a.lines, a.contexts, apn, scan);

      if a.scanOk && selected >= 0 && selectedPdp != configured {
        selectedPdp := configured;
      }
      if !a.scanOk || selected < 0 {
        var reuse := ReuseCid(a.listing);
        if reuse < 0 {
          return BaseClassDecides;
        }
        selectedPdp := configured;
        if !a.reconfigureOk {
          return Failed;
        }
        selected := reuse;
      }
      pdpType := selectedPdp;
      cid := selected;
      if scan.apn != "" && apn.None? {
        foundApn := scan.apn;
      }
      if a.isActive {
        isActive := true;
      }
      return Ready;
    }
  }

  /** Only one place is the preferred one, so any such place is the scan's. */
  lemma ScanIsFirstBest(lines: seq<Activation>, contexts: seq<Context>, wanted: Option<string>, r: Choice)
    requires r.cid == -1 <==> NoneAcceptable(lines, contexts, wanted)
    requires r.cid != -1 ==> exists k :: FirstBest(lines, contexts, wanted, k) &&
                                       r == Choice(contexts[k].cid, contexts[k].pdp, contexts[k].apn)
    ensures forall k :: Preferred(lines, contexts, wanted, k) ==> contexts[k].cid == r.cid && contexts[k].apn == r.apn
    ensures r.cid != -1 ==> exists k :: Preferred(lines, contexts, wanted, k) && contexts[k].apn == r.apn
  {
    if k :| FirstBest(lines, contexts, wanted, k) && r == Choice(contexts[k].cid, contexts[k].pdp, contexts[k].apn) {
      FirstBestIff(lines, contexts, wanted, k);
    }
    forall k | Preferred(lines, contexts, wanted, k)
      ensures contexts[k].cid == r.cid && contexts[k].apn == r.apn
    {
      FirstBestIff(lines, contexts, wanted, k);
      assert r.cid != -1;
      var j :| FirstBest(lines, contexts, wanted, j) && r == Choice(contexts[j].cid, contexts[j].pdp, contexts[j].apn);
      assert j == k;
    }
  }
}
