/** internal/coverage/inventory.go: every candidate of the universe and every emitted type
    is classified into one row. */
module Inventory {
  import opened Wrappers
  import opened Coverage
  import opened Summaries
  import Lex
  import opened Sorting

  datatype Class = ResourceClass | AttributeClass | CatalogClass | NonResourceClass

  datatype Candidate = Candidate(service: string, key: string, class_: Class, depth: int, rule: string, signals: seq<string>)

  datatype TypeDecl = TypeDecl(service: string, discoType: string)

  datatype Pairing = Pairing(key: string, kind: string, types: seq<string>)

  /** The identities names are compared by: candidateIdent and typeIdents. */
  datatype Naming = Naming(ofCandidate: Candidate -> string, ofType: string -> seq<string>)

  /** pairings is None when the slice is nil; paired records that the walk ran. */
  datatype Inputs = Inputs(provider: string, pins: map<string, string>, emits: seq<TypeDecl>, candidates: seq<Candidate>,
                           pairings: Option<seq<Pairing>>, unpaired: map<string, string>, paired: bool, naming: Naming)

  // ------------------------------------------------------------ paired types

  /** A pairing that proves a scanner lists a candidate. */
  predicate Anchors(p: Pairing) {
    p.key != "" && p.kind in {"emits", "sidecar", "derived"}
  }

  function SetOf(ts: seq<string>): set<string> {
    set t | t in ts
  }

  predicate ListedIn(ps: seq<Pairing>, key: string) {
    exists p :: p in ps && Anchors(p) && p.key == key
  }

  predicate PairedIn(ps: seq<Pairing>, key: string, t: string) {
    exists p :: p in ps && Anchors(p) && p.key == key && t in p.types
  }

  /** Keys with a listing, each with the types that are stored from it. */
  ghost predicate TypesOf(ps: seq<Pairing>, types: map<string, set<string>>) {
    && (forall k :: k in types <==> ListedIn(ps, k))
    && (forall k, t :: k in types ==> (t in types[k] <==> PairedIn(ps, k, t)))
  }

  method PairedTypes(ps: seq<Pairing>) returns (types: map<string, set<string>>)
    ensures TypesOf(ps, types)
  {
    types := map[];
    for i := 0 to |ps|
      invariant TypesOf(ps[..i], types)
    {
      var p := ps[i];
      PairingSnoc(ps[..i], p);
      assert ps[..i+1] == ps[..i] + [p];
      if !Anchors(p) {
        continue;
      }
      var known := if p.key in types then types[p.key] else {};
      types := types[p.key := known + SetOf(p.types)];
    }
    assert ps[..|ps|] == ps;
  }

  lemma PairingSnoc(ps: seq<Pairing>, p: Pairing)
    ensures forall k :: ListedIn(ps + [p], k) <==> ListedIn(ps, k) || (Anchors(p) && p.key == k)
    ensures forall k, t :: PairedIn(ps + [p], k, t) <==> PairedIn(ps, k, t) || (Anchors(p) && p.key == k && t in p.types)
  {
    assert forall q :: q in ps + [p] <==> q in ps || q == p;
  }

  // ------------------------------------------------------------ name matches

  /** The first emitted type that answers to an identity. */
  function FirstNamed(n: Naming, emits: seq<TypeDecl>, id: string): (r: Option<string>)
    ensures r.Some? <==> exists e :: e in emits && id in n.ofType(e.discoType)
    ensures r.Some? ==> exists e :: e in emits && e.discoType == r.value && id in n.ofType(e.discoType)
  {
    if emits == [] then None
    else
      var init, last := emits[..|emits|-1], emits[|emits|-1];
      assert forall e :: e in emits <==> e in init || e == last;
      if FirstNamed(n, init, id).Some? then FirstNamed(n, init, id)
      else if id in n.ofType(last.discoType) then Some(last.discoType)
      else None
  }

  ghost predicate NamesOf(n: Naming, emits: seq<TypeDecl>, byIdent: map<string, string>) {
    && (forall id :: id in byIdent <==> FirstNamed(n, emits, id).Some?)
    && (forall id :: id in byIdent ==> FirstNamed(n, emits, id) == Some(byIdent[id]))
  }

  method TypesByIdent(n: Naming, emits: seq<TypeDecl>) returns (byIdent: map<string, string>)
    ensures NamesOf(n, emits, byIdent)
  {
    byIdent := map[];
    for i := 0 to |emits|
      invariant NamesOf(n, emits[..i], byIdent)
    {
      var t := emits[i].discoType;
      var ids := n.ofType(t);
      ghost var before := byIdent;
      for j := 0 to |ids|
        invariant forall id :: id in byIdent <==> id in before || id in ids[..j]
        invariant forall id :: id in byIdent ==> byIdent[id] == if id in before then before[id] else t
      {
        if ids[j] !in byIdent {
          byIdent := byIdent[ids[j] := t];
        }
      }
      assert ids[..|ids|] == ids;
      assert emits[..i+1][..i] == emits[..i];
    }
    assert emits[..|emits|] == emits;
  }

  // --------------------------------------------------------------- bestType

  /** The text after the last slash. */
  function Leaf(id: string): string {
    if id == "" then ""
    else if id[|id|-1] == '/' then ""
    else Leaf(id[..|id|-1]) + [id[|id|-1]]
  }

  predicate FullMatch(n: Naming, t: string, want: string) {
    want in n.ofType(t)
  }

  predicate LeafMatch(n: Naming, t: string, want: string) {
    exists id :: id in n.ofType(t) && Leaf(id) == Leaf(want)
  }

  ghost predicate IsLeast(t: string, s: set<string>) {
    t in s && forall u :: u in s ==> u == t || Lex.Less(t, u)
  }

  /** The type to display: the least one with the candidate's identity, else the least
      one sharing its leaf, else the only one; none if several match nothing. */
  ghost predicate IsBest(n: Naming, paired: set<string>, want: string, t: string) {
    var full, leaf := set u | u in paired && FullMatch(n, u, want), set u | u in paired && LeafMatch(n, u, want);
    if full != {} then IsLeast(t, full)
    else if leaf != {} then IsLeast(t, leaf)
    else if |paired| == 1 then t in paired
    else t == ""
  }

  lemma BestUnique(n: Naming, paired: set<string>, want: string, t: string, u: string)
    requires IsBest(n, paired, want, t) && IsBest(n, paired, want, u)
    ensures t == u
  {
    hide FullMatch, LeafMatch;
    if Lex.Less(t, u) && Lex.Less(u, t) {
      Lex.Asymmetric(t, u);
    }
    if |paired| == 1 && t in paired && u in paired {
      OneElement(paired, t, u);
    }
  }

  lemma OneElement(s: set<string>, t: string, u: string)
    requires |s| == 1 && t in s && u in s
    ensures t == u
  {
    var rest := s - {t};
    assert |rest| == 0;
    assert u !in rest;
  }

  lemma FirstIsLeast(names: seq<string>, i: nat, s: set<string>)
    requires SortedBy(Lex.Less, names) && i < |names| && names[i] in s
    requires forall t :: t in s ==> t in names
    requires forall j :: 0 <= j < i ==> names[j] !in s
    ensures IsLeast(names[i], s)
  {
    hide Lex.Less;
    forall u | u in s ensures u == names[i] || Lex.Less(names[i], u) {
      var j :| 0 <= j < |names| && names[j] == u;
      assert j >= i;
    }
  }

  method BestType(n: Naming, paired: set<string>, want: string) returns (t: string)
    ensures IsBest(n, paired, want, t)
  {
    hide Lex.Less, FullMatch, LeafMatch;
    var names := Lex.SortedSet(paired);
    for i := 0 to |names|
      invariant forall j :: 0 <= j < i ==> !FullMatch(n, names[j], want)
    {
      if FullMatch(n, names[i], want) {
        FirstIsLeast(names, i, set u | u in paired && FullMatch(n, u, want));
        return names[i];
      }
    }
    assert forall u :: u in paired ==> !FullMatch(n, u, want);
    for i := 0 to |names|
      invariant forall j :: 0 <= j < i ==> !LeafMatch(n, names[j], want)
    {
      if LeafMatch(n, names[i], want) {
        FirstIsLeast(names, i, set u | u in paired && LeafMatch(n, u, want));
        return names[i];
      }
    }
    assert forall u :: u in paired ==> !LeafMatch(n, u, want);
    if |names| == 1 {
      assert names[0] in names;
      return names[0];
    }
    t := "";
  }

  // --------------------------------------------------------- candidate rows

  function Pairings(inp: Inputs): seq<Pairing> {
    if inp.pairings.Some? then inp.pairings.value else []
  }

  function PairedSet(ps: seq<Pairing>, key: string): (s: set<string>)
    ensures forall t :: t in s <==> PairedIn(ps, key, t)
  {
    set p, t | p in ps && Anchors(p) && p.key == key && t in p.types :: t
  }

  /** The pairing ran, by the slice not being nil, and could not explain the type. */
  predicate Contradicted(inp: Inputs, t: string) {
    inp.pairings.Some? && t in inp.unpaired && inp.unpaired[t] == UNEXPLAINED
  }

  /** The type a candidate matches by name alone. */
  function NameMatch(inp: Inputs, c: Candidate): Option<string> {
    var first := FirstNamed(inp.naming, inp.emits, inp.naming.ofCandidate(c));
    if first.Some? && !Contradicted(inp, first.value) then first else None
  }

  /** The types a candidate's row answers for. */
  function CreditedBy(inp: Inputs, c: Candidate): set<string> {
    var ps := Pairings(inp);
    if ListedIn(ps, c.key) then PairedSet(ps, c.key)
    else if NameMatch(inp, c).Some? then {NameMatch(inp, c).value}
    else {}
  }

  /** The full list a row carries when several types are paired. */
  ghost predicate ListsTypes(paired: set<string>, shown: string, types: seq<string>) {
    if |paired| == 1 then types == []
    else
      SortedBy(Lex.Less, types) && forall t :: t in types <==> t in paired && (t != "" || shown != "")
  }

  /** What the row displays, by which evidence. */
  ghost predicate Displays(inp: Inputs, c: Candidate, shown: string, types: seq<string>, reason: string) {
    var ps := Pairings(inp);
    var paired := PairedSet(ps, c.key);
    if paired != {} then
      IsBest(inp.naming, paired, inp.naming.ofCandidate(c), shown)
      && ListsTypes(paired, shown, types)
      && reason == if shown == "" then "multi-type" else ""
    else if ListedIn(ps, c.key) then shown == "" && types == [] && reason == "sidecar"
    else if NameMatch(inp, c).Some? then shown == NameMatch(inp, c).value && types == [] && reason == "matched-by-name"
    else shown == "" && types == [] && reason == ""
  }

  const PREVIEW_ONLY := "preview-only"
  const SCANNER_LISTS := "scanner-lists"

  predicate Preview(c: Candidate) {
    PREVIEW_ONLY in c.signals
  }

  predicate OutOfScope(c: Candidate) {
    c.class_ == CatalogClass || c.class_ == NonResourceClass
  }

  /** The bucket: only resource candidates enter the denominator, and one of them is
      covered exactly when a pairing lists it or a type is shown for it. An excluded row
      that a scanner stores from keeps a signal saying so. */
  ghost predicate Bucketed(inp: Inputs, c: Candidate, row: Row) {
    var inUniverse := !Preview(c) && c.class_ == ResourceClass;
    var evidence := ListedIn(Pairings(inp), c.key) || row.discoType != "";
    && (row.bucket == Covered <==> inUniverse && evidence)
    && (row.bucket == Uncovered <==> inUniverse && !evidence)
    && (row.bucket == Attribute <==> !Preview(c) && c.class_ == AttributeClass)
    && (row.bucket == Excluded <==> Preview(c) || OutOfScope(c))
    && row.signals == if ScannerLists(c, row) then c.signals + [SCANNER_LISTS] else c.signals
  }

  predicate ScannerLists(c: Candidate, row: Row) {
    !Preview(c) && OutOfScope(c) && (row.discoType != "" || row.discoTypes != [])
  }

  /** The row of one candidate. */
  ghost predicate RowFor(inp: Inputs, c: Candidate, row: Row) {
    && row.service == c.service && row.key == c.key && row.depth == c.depth && row.rule == c.rule
    && Bucketed(inp, c, row)
    && (row.bucket != Excluded ==> Displays(inp, c, row.discoType, row.discoTypes, row.reason))
    && (row.bucket == Excluded ==> ExcludedReason(inp, c, row))
  }

  /** An exclusion overwrites the reason but keeps the types. */
  ghost predicate ExcludedReason(inp: Inputs, c: Candidate, row: Row) {
    && (exists reason :: Displays(inp, c, row.discoType, row.discoTypes, reason))
    && row.reason == if Preview(c) then PREVIEW_ONLY else ClassName(c.class_)
  }

  function ClassName(c: Class): string {
    match c
    case ResourceClass => "resource"
    case AttributeClass => "attribute"
    case CatalogClass => "catalog"
    case NonResourceClass => "non-resource"
  }

  predicate RowNames(row: Row, t: string) {
    row.discoType == t || t in row.discoTypes
  }

  /** A row names every type it is credited with. */
  lemma RowNamesCredited(inp: Inputs, c: Candidate, shown: string, types: seq<string>, reason: string, t: string)
    requires Displays(inp, c, shown, types, reason) && t in CreditedBy(inp, c)
    ensures shown == t || t in types
  {
    hide Lex.Less, FullMatch, LeafMatch, ListedIn, NameMatch, PairedIn;
    var paired := PairedSet(Pairings(inp), c.key);
    PairedIsListed(Pairings(inp), c.key);
    if paired != {} && |paired| == 1 {
      BestIsPaired(inp.naming, paired, inp.naming.ofCandidate(c), shown);
      OneElement(paired, shown, t);
    }
  }

  lemma PairedIsListed(ps: seq<Pairing>, key: string)
    ensures PairedSet(ps, key) != {} ==> ListedIn(ps, key)
  {
    if PairedSet(ps, key) != {} {
      var t :| t in PairedSet(ps, key);
      assert PairedIn(ps, key, t);
    }
  }

  lemma BestIsPaired(n: Naming, paired: set<string>, want: string, t: string)
    requires IsBest(n, paired, want, t) && |paired| == 1
    ensures t in paired
  {
  }

  method AssignPairedTypes(n: Naming, paired: set<string>, want: string)
    returns (shown: string, types: seq<string>, reason: string)
    requires paired != {}
    ensures IsBest(n, paired, want, shown) && ListsTypes(paired, shown, types)
    ensures reason == if shown == "" then "multi-type" else ""
  {
    hide IsBest;
    shown := BestType(n, paired, want);
    reason := if shown == "" then "multi-type" else "";
    if |paired| > 1 {
      if shown != "" {
        BestInSet(n, paired, want, shown);
      }
      types := AllTypes(paired, shown);
    } else {
      SizeOne(paired);
      types := [];
    }
  }

  /** Every type but an unnamed one, in order: the loop keeps the others, and the shown
      one joins them when there are several. */
  method AllTypes(paired: set<string>, shown: string) returns (types: seq<string>)
    requires shown != "" ==> shown in paired
    ensures SortedBy(Lex.Less, types) && forall t :: t in types <==> t in paired && (t != "" || shown != "")
  {
    hide Lex.Less, OrderOn, WeakOrder, StableSort;
    types := Elements(paired - {shown});
    if shown != "" {
      types := types + [shown];
    }
    Lex.Orders(types);
    types := Sort(Lex.Less, types);
  }

  lemma SizeOne(s: set<string>)
    requires s != {} && |s| <= 1
    ensures |s| == 1
  {
  }

  lemma BestInSet(n: Naming, paired: set<string>, want: string, t: string)
    requires IsBest(n, paired, want, t) && t != ""
    ensures t in paired
  {
  }

  method CandidateRow(inp: Inputs, types: map<string, set<string>>, byIdent: map<string, string>, c: Candidate)
    returns (row: Row, credited: set<string>)
    requires TypesOf(Pairings(inp), types) && NamesOf(inp.naming, inp.emits, byIdent)
    ensures RowFor(inp, c, row) && credited == CreditedBy(inp, c)
  {
    var shown, others, reason;
    shown, others, reason, credited := Evidence(inp, types, byIdent, c);
    var listed := c.key in types;
    assert listed == ListedIn(Pairings(inp), c.key);
    hide *;
    row := Row(c.service, c.key, shown, others, Uncovered, c.depth, c.rule, reason, c.signals);
    ghost var draft := row;
    row := Place(inp, c, listed, row);
    PlacedIsRow(inp, c, draft, row);
  }

  lemma PlacedIsRow(inp: Inputs, c: Candidate, draft: Row, row: Row)
    requires draft.service == c.service && draft.key == c.key && draft.depth == c.depth && draft.rule == c.rule
    requires Displays(inp, c, draft.discoType, draft.discoTypes, draft.reason)
    requires row == draft.(bucket := row.bucket, reason := row.reason, signals := row.signals)
    requires Bucketed(inp, c, row)
    requires row.reason ==
      if row.bucket != Excluded then draft.reason else if Preview(c) then PREVIEW_ONLY else ClassName(c.class_)
    requires row.bucket == Excluded ==> Preview(c) || OutOfScope(c)
    ensures RowFor(inp, c, row)
  {
    hide Displays, Bucketed;
  }

  method Place(inp: Inputs, c: Candidate, listed: bool, draft: Row) returns (row: Row)
    requires listed == ListedIn(Pairings(inp), c.key) && draft.bucket == Uncovered && draft.signals == c.signals
    ensures row == draft.(bucket := row.bucket, reason := row.reason, signals := row.signals)
    ensures Bucketed(inp, c, row) && (row.bucket == Excluded ==> Preview(c) || OutOfScope(c))
    ensures row.reason ==
      if row.bucket != Excluded then draft.reason else if Preview(c) then PREVIEW_ONLY else ClassName(c.class_)
  {
    hide ListedIn, ClassName;
    row := draft;
    if PREVIEW_ONLY in c.signals {
      row := row.(bucket := Excluded, reason := PREVIEW_ONLY);
    } else if c.class_ == AttributeClass {
      row := row.(bucket := Attribute);
    } else if c.class_ == CatalogClass || c.class_ == NonResourceClass {
      row := row.(bucket := Excluded, reason := ClassName(c.class_));
      if row.discoType != "" || |row.discoTypes| > 0 {
        row := row.(signals := c.signals + [SCANNER_LISTS]);
      }
    } else if listed || row.discoType != "" {
      row := row.(bucket := Covered);
    }
  }

  /** What pairing, or failing that a name, says of a candidate. */
  method Evidence(inp: Inputs, types: map<string, set<string>>, byIdent: map<string, string>, c: Candidate)
    returns (shown: string, others: seq<string>, reason: string, credited: set<string>)
    requires TypesOf(Pairings(inp), types) && NamesOf(inp.naming, inp.emits, byIdent)
    ensures Displays(inp, c, shown, others, reason) && credited == CreditedBy(inp, c)
  {
    hide IsBest, ListsTypes, ListedIn, PairedIn, FirstNamed;
    var want := inp.naming.ofCandidate(c);
    shown, others, reason, credited := "", [], "", {};
    if c.key in types {
      assert types[c.key] == PairedSet(Pairings(inp), c.key);
      if |types[c.key]| > 0 {
        shown, others, reason := AssignPairedTypes(inp.naming, types[c.key], want);
        credited := types[c.key];
      } else {
        reason := "sidecar";
      }
      return;
    }
    PairedIsListed(Pairings(inp), c.key);
    if want in byIdent && !Contradicted(inp, byIdent[want]) {
      shown, reason := byIdent[want], "matched-by-name";
      credited := {shown};
    }
  }

  // --------------------------------------------------------- the whole matrix

  /** Why an emitted type has no candidate. */
  function DiscoReason(inp: Inputs, t: string): string {
    if !inp.paired then "pairing-unavailable"
    else if t in inp.unpaired && inp.unpaired[t] != UNEXPLAINED then "explained: " + inp.unpaired[t]
    else UNEXPLAINED
  }

  function DiscoRow(inp: Inputs, e: TypeDecl): Row {
    Row(e.service, "", e.discoType, [], DiscoOnly, 0, "", DiscoReason(inp, e.discoType), [])
  }

  function DiscoRows(inp: Inputs, accounted: set<string>, emits: seq<TypeDecl>): seq<Row> {
    if emits == [] then []
    else
      var e := emits[|emits|-1];
      DiscoRows(inp, accounted, emits[..|emits|-1]) + if e.discoType in accounted then [] else [DiscoRow(inp, e)]
  }

  ghost function AccountedBy(inp: Inputs, cs: seq<Candidate>): set<string> {
    set c, t | c in cs && t in CreditedBy(inp, c) :: t
  }

  /** own has the row of each candidate, rest the rows of the types nobody accounts for. */
  ghost predicate Built(inp: Inputs, own: seq<Row>, rest: seq<Row>) {
    && |own| == |inp.candidates|
    && (forall i :: 0 <= i < |own| ==> RowFor(inp, inp.candidates[i], own[i]))
    && rest == DiscoRows(inp, AccountedBy(inp, inp.candidates), inp.emits)
  }

  function BucketRank(b: Bucket): int {
    match b
    case Covered => 0
    case Uncovered => 1
    case Attribute => 2
    case Excluded => 3
    case DiscoOnly => 4
    case RegistryDrift => 5
  }

  predicate RowLess(a: Row, b: Row) {
    if a.bucket != b.bucket then BucketRank(a.bucket) < BucketRank(b.bucket)
    else if a.service != b.service then Lex.Less(a.service, b.service)
    else if a.key != b.key then Lex.Less(a.key, b.key)
    else Lex.Less(a.discoType, b.discoType)
  }

  lemma RowLessWeak(all: seq<Row>)
    ensures WeakOrder(RowLess, all)
  {
    hide Lex.Less;
    forall a: string, b: string
      ensures !(Lex.Less(a, b) && Lex.Less(b, a))
      ensures a != b ==> Lex.Less(a, b) || Lex.Less(b, a)
    {
      Lex.Asymmetric(a, b);
      Lex.Total(a, b);
    }
    forall a: string, b: string, c: string | !Lex.Less(b, a) && !Lex.Less(c, b) ensures !Lex.Less(c, a) {
      Lex.NotGreaterTransitive(a, b, c);
    }
    forall a: Row, b: Row, c: Row | !RowLess(b, a) && !RowLess(c, b) ensures !RowLess(c, a) {
    }
  }

  /** The order of the report: sorted, and rows that tie as they came. */
  ghost predicate InReportOrder(rows: seq<Row>, sorted: seq<Row>) {
    && Ordered(RowLess, sorted) && multiset(sorted) == multiset(rows)
    && forall x :: x in rows ==> Tied(RowLess, sorted, x) == Tied(RowLess, rows, x)
  }

  lemma SortedInReportOrder(rows: seq<Row>)
    ensures InReportOrder(rows, StableSort(RowLess, rows))
  {
    RowLessWeak(rows);
    hide RowLess, WeakOrder;
    StableSortOrdered(RowLess, rows);
    forall x | x in rows ensures Tied(RowLess, StableSort(RowLess, rows), x) == Tied(RowLess, rows, x) {
      StableSortStable(RowLess, rows, rows, x);
    }
  }

  // ---------------------------------------------------- what a row says, plainly

  /** A pairing of the kinds that prove a listing names the key. */
  ghost predicate Proven(inp: Inputs, key: string) {
    exists p :: ProvenBy(inp, key, p)
  }

  ghost predicate ProvenBy(inp: Inputs, key: string, p: Pairing) {
    && inp.pairings.Some? && p in inp.pairings.value && key != "" && p.key == key
    && (p.kind == "emits" || p.kind == "sidecar" || p.kind == "derived")
  }

  ghost predicate ProvenFor(inp: Inputs, key: string, t: string) {
    exists p :: ProvenBy(inp, key, p) && t in p.types
  }

  /** t is the first emitted type that answers to the candidate's identity. */
  ghost predicate NamedFirst(inp: Inputs, c: Candidate, t: string) {
    exists i :: FirstAnswer(inp, inp.naming.ofCandidate(c), i) && t == inp.emits[i].discoType
  }

  ghost predicate FirstAnswer(inp: Inputs, id: string, i: int) {
    NamedAt(inp.naming, inp.emits, id, i)
  }

  ghost predicate NamedAt(n: Naming, emits: seq<TypeDecl>, id: string, i: int) {
    && 0 <= i < |emits| && id in n.ofType(emits[i].discoType)
    && forall j :: 0 <= j < i ==> id !in n.ofType(emits[j].discoType)
  }

  /** And the pairing, if there was one, did not fail to explain it. */
  ghost predicate NameStands(inp: Inputs, c: Candidate, t: string) {
    NamedFirst(inp, c, t) && !(inp.pairings.Some? && t in inp.unpaired && inp.unpaired[t] == "unexplained")
  }

  /** Everything after the last slash. */
  ghost predicate AfterSlash(id: string, leaf: string) {
    '/' !in leaf && (id == leaf || exists head :: id == head + "/" + leaf)
  }

  ghost predicate HasIdent(inp: Inputs, t: string, want: string) {
    want in inp.naming.ofType(t)
  }

  ghost predicate SharesLeaf(inp: Inputs, t: string, want: string) {
    exists id, leaf :: id in inp.naming.ofType(t) && AfterSlash(id, leaf) && AfterSlash(want, leaf)
  }

  /** Of the types under the key that have the candidate's identity, or its leaf. */
  ghost predicate ByIdent(inp: Inputs, c: Candidate, t: string) {
    ProvenFor(inp, c.key, t) && HasIdent(inp, t, inp.naming.ofCandidate(c))
  }

  ghost predicate ByLeaf(inp: Inputs, c: Candidate, t: string) {
    ProvenFor(inp, c.key, t) && SharesLeaf(inp, t, inp.naming.ofCandidate(c))
  }

  lemma ProvenExact(inp: Inputs, key: string)
    ensures ListedIn(Pairings(inp), key) <==> Proven(inp, key)
    ensures forall t :: PairedIn(Pairings(inp), key, t) <==> ProvenFor(inp, key, t)
  {
    forall p ensures p in Pairings(inp) && Anchors(p) && p.key == key <==> ProvenBy(inp, key, p) {
    }
    hide ProvenBy, Anchors, Pairings;
  }

  lemma {:induction false} FirstNamedExact(n: Naming, emits: seq<TypeDecl>, id: string)
    ensures FirstNamed(n, emits, id) == None ==> forall j :: 0 <= j < |emits| ==> id !in n.ofType(emits[j].discoType)
    ensures FirstNamed(n, emits, id).Some? ==>
      exists i :: NamedAt(n, emits, id, i) && FirstNamed(n, emits, id) == Some(emits[i].discoType)
  {
    if emits != [] {
      var k := |emits| - 1;
      var init := emits[..k];
      FirstNamedExact(n, init, id);
      assert forall j :: 0 <= j < k ==> init[j] == emits[j];
      if FirstNamed(n, init, id).Some? {
        var i :| NamedAt(n, init, id, i) && FirstNamed(n, init, id) == Some(init[i].discoType);
        assert NamedAt(n, emits, id, i);
      } else if id in n.ofType(emits[k].discoType) {
        assert NamedAt(n, emits, id, k);
      }
    }
  }

  lemma NameExact(inp: Inputs, c: Candidate, t: string)
    ensures NameMatch(inp, c) == Some(t) <==> NameStands(inp, c, t)
  {
    var id := inp.naming.ofCandidate(c);
    FirstNamedExact(inp.naming, inp.emits, id);
    var first := FirstNamed(inp.naming, inp.emits, id);
    hide FirstNamed;
    if first.Some? {
      var i :| NamedAt(inp.naming, inp.emits, id, i) && first == Some(inp.emits[i].discoType);
      assert FirstAnswer(inp, id, i);
    }
    OneFirst(inp, id);
    assert NamedFirst(inp, c, t) <==> first == Some(t);
  }

  lemma OneFirst(inp: Inputs, id: string)
    ensures forall i, j :: FirstAnswer(inp, id, i) && FirstAnswer(inp, id, j) ==> i == j
  {
  }

  lemma {:induction false} LeafExact(id: string, leaf: string)
    ensures Leaf(id) == leaf <==> AfterSlash(id, leaf)
  {
    if id == "" {
      assert forall head :: |head + "/" + leaf| > 0;
    } else {
      var n := |id| - 1;
      assert id == id[..n] + [id[n]];
      if id[n] == '/' {
        assert id == id[..n] + "/" + "";
        LastOfLeaf(id, leaf);
      } else if leaf != "" {
        LeafExact(id[..n], leaf[..|leaf|-1]);
        LeafShift(id, leaf);
      } else {
        NotEmptyLeaf(id);
      }
    }
  }

  lemma LastOfLeaf(id: string, leaf: string)
    ensures AfterSlash(id, leaf) && leaf != "" ==> id != "" && id[|id|-1] == leaf[|leaf|-1] != '/'
  {
    if AfterSlash(id, leaf) && leaf != "" {
      assert leaf[|leaf|-1] in leaf;
      if id != leaf {
        var head :| id == head + "/" + leaf;
        assert id == (head + "/" + leaf[..|leaf|-1]) + [leaf[|leaf|-1]];
      }
    }
  }

  lemma NotEmptyLeaf(id: string)
    requires id != "" && id[|id|-1] != '/'
    ensures !AfterSlash(id, "") && Leaf(id) != ""
  {
    forall head ensures id != head + "/" + "" {
      assert (head + "/" + "")[|head|] == '/' && |head + "/" + ""| == |head| + 1;
    }
  }

  lemma LeafShift(id: string, leaf: string)
    requires id != "" && id[|id|-1] != '/' && leaf != ""
    ensures AfterSlash(id, leaf) <==> id[|id|-1] == leaf[|leaf|-1] && AfterSlash(id[..|id|-1], leaf[..|leaf|-1])
  {
    var x, l := id[..|id|-1], leaf[..|leaf|-1];
    assert leaf == l + [leaf[|leaf|-1]] && id == x + [id[|id|-1]];
    if AfterSlash(id, leaf) && id != leaf {
      var head :| id == head + "/" + leaf;
      assert id == (head + "/" + l) + [leaf[|leaf|-1]];
      assert x == head + "/" + l;
    }
    if id[|id|-1] == leaf[|leaf|-1] && AfterSlash(x, l) && x != l {
      var head :| x == head + "/" + l;
      assert id == head + "/" + leaf;
    }
  }

  lemma MatchesExact(inp: Inputs, t: string, want: string)
    ensures FullMatch(inp.naming, t, want) <==> HasIdent(inp, t, want)
    ensures LeafMatch(inp.naming, t, want) <==> SharesLeaf(inp, t, want)
  {
    forall id, leaf ensures Leaf(id) == leaf <==> AfterSlash(id, leaf) {
      LeafExact(id, leaf);
    }
    hide Leaf, AfterSlash;
    if LeafMatch(inp.naming, t, want) {
      var id :| id in inp.naming.ofType(t) && Leaf(id) == Leaf(want);
      assert AfterSlash(id, Leaf(want));
    }
  }

  /** What a candidate's row displays, and why. */
  ghost predicate Shows(inp: Inputs, c: Candidate, shown: string, types: seq<string>, reason: string) {
    if exists t :: ProvenFor(inp, c.key, t) then
      && ShowsBest(inp, c, shown) && reason == (if shown == "" then "multi-type" else "")
      && (OnlyOne(inp, c.key) ==> types == []) && (!OnlyOne(inp, c.key) ==> AllListed(inp, c.key, shown, types))
    else if Proven(inp, c.key) then shown == "" && types == [] && reason == "sidecar"
    else if exists t :: NameStands(inp, c, t) then NameStands(inp, c, shown) && types == [] && reason == "matched-by-name"
    else shown == "" && types == [] && reason == ""
  }

  ghost predicate AllListed(inp: Inputs, key: string, shown: string, types: seq<string>) {
    && (forall i, j :: 0 <= i < j < |types| ==> Lex.Less(types[i], types[j]))
    && (forall t :: t in types <==> ProvenFor(inp, key, t) && (t != "" || shown != ""))
  }

  ghost predicate OnlyOne(inp: Inputs, key: string) {
    exists t :: ProvenFor(inp, key, t) && forall u :: ProvenFor(inp, key, u) ==> u == t
  }

  /** The least type with the candidate's identity, else the least that shares its leaf,
      else the only one, else none. */
  ghost predicate ShowsBest(inp: Inputs, c: Candidate, shown: string) {
    if exists t :: ByIdent(inp, c, t) then ByIdent(inp, c, shown) && forall u :: ByIdent(inp, c, u) ==> u == shown || Lex.Less(shown, u)
    else if exists t :: ByLeaf(inp, c, t) then ByLeaf(inp, c, shown) && forall u :: ByLeaf(inp, c, u) ==> u == shown || Lex.Less(shown, u)
    else if OnlyOne(inp, c.key) then ProvenFor(inp, c.key, shown)
    else shown == ""
  }

  lemma OneOfSet(s: set<string>)
    ensures |s| == 1 <==> exists t :: t in s && forall u :: u in s ==> u == t
  {
    if t :| t in s && forall u :: u in s ==> u == t {
      assert s == {t};
    }
    if |s| == 1 {
      var t :| t in s;
      forall u | u in s ensures u == t {
        OneElement(s, t, u);
      }
    }
  }

  ghost predicate Satisfiable<T(!new)>(has: T -> bool) {
    exists t :: has(t)
  }

  lemma NotEmpty<T(!new)>(s: set<T>, has: T -> bool)
    requires forall t :: t in s <==> has(t)
    ensures s != {} <==> Satisfiable(has)
  {
    if s != {} {
      var t :| t in s;
      assert has(t);
    }
  }

  lemma PairedSetExact(inp: Inputs, key: string)
    ensures forall t :: t in PairedSet(Pairings(inp), key) <==> ProvenFor(inp, key, t)
    ensures PairedSet(Pairings(inp), key) != {} <==> exists t :: ProvenFor(inp, key, t)
    ensures |PairedSet(Pairings(inp), key)| == 1 <==> OnlyOne(inp, key)
  {
    var paired := PairedSet(Pairings(inp), key);
    ProvenExact(inp, key);
    assert forall t :: t in paired <==> ProvenFor(inp, key, t);
    OneOfSet(paired);
    hide ProvenFor, PairedIn, PairedSet, Pairings;
    NotEmpty(paired, t => ProvenFor(inp, key, t));
  }

  lemma FullTier(inp: Inputs, c: Candidate)
    ensures var tier := set u | u in PairedSet(Pairings(inp), c.key) && FullMatch(inp.naming, u, inp.naming.ofCandidate(c));
      (forall t :: t in tier <==> ByIdent(inp, c, t)) && (tier != {} <==> exists t :: ByIdent(inp, c, t))
  {
    PairedSetExact(inp, c.key);
    hide ProvenFor, PairedSet, Pairings, OnlyOne;
    var tier := set u | u in PairedSet(Pairings(inp), c.key) && FullMatch(inp.naming, u, inp.naming.ofCandidate(c));
    forall t ensures t in tier <==> ByIdent(inp, c, t) {
      MatchesExact(inp, t, inp.naming.ofCandidate(c));
    }
    NotEmpty(tier, t => ByIdent(inp, c, t));
  }

  lemma LeafTier(inp: Inputs, c: Candidate)
    ensures var tier := set u | u in PairedSet(Pairings(inp), c.key) && LeafMatch(inp.naming, u, inp.naming.ofCandidate(c));
      (forall t :: t in tier <==> ByLeaf(inp, c, t)) && (tier != {} <==> exists t :: ByLeaf(inp, c, t))
  {
    PairedSetExact(inp, c.key);
    hide ProvenFor, PairedSet, Pairings, OnlyOne, LeafMatch, SharesLeaf;
    var tier := set u | u in PairedSet(Pairings(inp), c.key) && LeafMatch(inp.naming, u, inp.naming.ofCandidate(c));
    forall t ensures t in tier <==> ByLeaf(inp, c, t) {
      MatchesExact(inp, t, inp.naming.ofCandidate(c));
    }
    NotEmpty(tier, t => ByLeaf(inp, c, t));
  }

  lemma BestExact(inp: Inputs, c: Candidate, shown: string)
    ensures IsBest(inp.naming, PairedSet(Pairings(inp), c.key), inp.naming.ofCandidate(c), shown) <==> ShowsBest(inp, c, shown)
  {
    PairedSetExact(inp, c.key);
    FullTier(inp, c);
    LeafTier(inp, c);
    hide ProvenFor, FullMatch, LeafMatch, ByIdent, ByLeaf, PairedSet, Pairings, OnlyOne, Lex.Less;
  }

  lemma TypesExact(inp: Inputs, key: string, shown: string, types: seq<string>)
    ensures ListsTypes(PairedSet(Pairings(inp), key), shown, types) <==>
      if OnlyOne(inp, key) then types == [] else AllListed(inp, key, shown, types)
  {
    PairedSetExact(inp, key);
    hide ProvenFor, PairedSet, Pairings, OnlyOne, Lex.Less;
  }

  lemma NamesExact(inp: Inputs, c: Candidate)
    ensures forall t :: NameMatch(inp, c) == Some(t) <==> NameStands(inp, c, t)
    ensures NameMatch(inp, c).Some? <==> exists t :: NameStands(inp, c, t)
  {
    forall t ensures NameMatch(inp, c) == Some(t) <==> NameStands(inp, c, t) {
      NameExact(inp, c, t);
    }
    hide NameMatch, NameStands;
    if NameMatch(inp, c).Some? {
      assert NameStands(inp, c, NameMatch(inp, c).value);
    }
  }

  lemma ShowsExact(inp: Inputs, c: Candidate, shown: string, types: seq<string>, reason: string)
    ensures Displays(inp, c, shown, types, reason) <==> Shows(inp, c, shown, types, reason)
  {
    PairedSetExact(inp, c.key);
    ProvenExact(inp, c.key);
    BestExact(inp, c, shown);
    TypesExact(inp, c.key, shown, types);
    NamesExact(inp, c);
    hide ProvenFor, Proven, PairedIn, ListedIn, PairedSet, Pairings, NameMatch, NameStands, IsBest, ShowsBest, ListsTypes, AllListed, OnlyOne;
    assert NameMatch(inp, c).Some? ==> (NameStands(inp, c, shown) <==> shown == NameMatch(inp, c).value);
  }

  /** The row of a candidate: its own cells, the types it shows with the reason, and its
      bucket. A preview-only or out-of-scope candidate is excluded, and one that shows a
      type all the same is marked. */
  ghost predicate CandidateShown(inp: Inputs, c: Candidate, row: Row) {
    && row.service == c.service && row.key == c.key && row.depth == c.depth && row.rule == c.rule
    && BucketShown(inp, c, row) && ReasonShown(inp, c, row)
  }

  ghost predicate BucketShown(inp: Inputs, c: Candidate, row: Row) {
    var preview := "preview-only" in c.signals;
    match c.class_
    case ResourceClass =>
      var evidence := Proven(inp, c.key) || row.discoType != "";
      row.signals == c.signals && row.bucket == if preview then Excluded else if evidence then Covered else Uncovered
    case AttributeClass => row.signals == c.signals && row.bucket == if preview then Excluded else Attribute
    case CatalogClass => row.bucket == Excluded && Marked(c, row, preview)
    case NonResourceClass => row.bucket == Excluded && Marked(c, row, preview)
  }

  ghost predicate Marked(c: Candidate, row: Row, preview: bool) {
    row.signals == c.signals + if !preview && (row.discoType != "" || row.discoTypes != []) then ["scanner-lists"] else []
  }

  /** An exclusion overwrites the reason and keeps the types. */
  ghost predicate ReasonShown(inp: Inputs, c: Candidate, row: Row) {
    if "preview-only" in c.signals then row.reason == "preview-only" && ShowsSome(inp, c, row)
    else if c.class_ == CatalogClass then row.reason == "catalog" && ShowsSome(inp, c, row)
    else if c.class_ == NonResourceClass then row.reason == "non-resource" && ShowsSome(inp, c, row)
    else Shows(inp, c, row.discoType, row.discoTypes, row.reason)
  }

  ghost predicate ShowsSome(inp: Inputs, c: Candidate, row: Row) {
    exists own :: Shows(inp, c, row.discoType, row.discoTypes, own)
  }

  lemma RowExact(inp: Inputs, c: Candidate, row: Row)
    requires RowFor(inp, c, row)
    ensures CandidateShown(inp, c, row)
  {
    BucketExact(inp, c, row);
    ReasonExact(inp, c, row);
    hide Bucketed, BucketShown, Displays, Shows, ExcludedReason, ReasonShown;
  }

  lemma BucketExact(inp: Inputs, c: Candidate, row: Row)
    requires Bucketed(inp, c, row)
    ensures BucketShown(inp, c, row)
  {
    ProvenExact(inp, c.key);
    hide ListedIn, Proven, PairedIn, ProvenFor;
    assert c.signals + [] == c.signals;
  }

  lemma ReasonExact(inp: Inputs, c: Candidate, row: Row)
    requires RowFor(inp, c, row)
    ensures ReasonShown(inp, c, row)
  {
    forall reason ensures Displays(inp, c, row.discoType, row.discoTypes, reason) <==> Shows(inp, c, row.discoType, row.discoTypes, reason) {
      ShowsExact(inp, c, row.discoType, row.discoTypes, reason);
    }
    hide Displays, Shows, ListedIn;
  }

  /** The row of a type that no candidate is paired with or named by. */
  ghost predicate LeftOver(inp: Inputs, row: Row) {
    exists e :: e in inp.emits && LeftOverOf(inp, e, row)
  }

  ghost predicate LeftOverOf(inp: Inputs, e: TypeDecl, row: Row) {
    && (forall c :: c in inp.candidates ==> !Credits(inp, c, e.discoType))
    && row.service == e.service && row.key == "" && row.discoType == e.discoType && row.discoTypes == []
    && row.bucket == DiscoOnly && row.depth == 0 && row.rule == "" && row.signals == []
    && row.reason ==
      if !inp.paired then "pairing-unavailable"
      else if e.discoType in inp.unpaired && inp.unpaired[e.discoType] != "unexplained" then "explained: " + inp.unpaired[e.discoType]
      else "unexplained"
  }

  ghost predicate Credits(inp: Inputs, c: Candidate, t: string) {
    ProvenFor(inp, c.key, t) || (!Proven(inp, c.key) && NameStands(inp, c, t))
  }

  lemma CreditsExact(inp: Inputs, c: Candidate, t: string)
    ensures t in CreditedBy(inp, c) <==> Credits(inp, c, t)
  {
    ProvenExact(inp, c.key);
    NameExact(inp, c, t);
    var paired := PairedSet(Pairings(inp), c.key);
    assert t in paired <==> ProvenFor(inp, c.key, t);
    PairedIsListed(Pairings(inp), c.key);
    hide ProvenFor, Proven, PairedIn, ListedIn, PairedSet, Pairings, NameMatch, NameStands;
  }

  lemma LeftOverExact(inp: Inputs, row: Row)
    ensures row in DiscoRows(inp, AccountedBy(inp, inp.candidates), inp.emits) <==> LeftOver(inp, row)
  {
    DiscoRowsExact(inp, AccountedBy(inp, inp.candidates), inp.emits, row);
    forall c, t ensures t in CreditedBy(inp, c) <==> Credits(inp, c, t) {
      CreditsExact(inp, c, t);
    }
    hide CreditedBy, Credits, DiscoRows;
    forall e | e in inp.emits
      ensures LeftOverOf(inp, e, row) <==> e.discoType !in AccountedBy(inp, inp.candidates) && row == DiscoRow(inp, e)
    {
    }
    hide LeftOverOf, DiscoRow, AccountedBy;
  }

  /** The order of the report, spelled out. */
  lemma RowOrderExact(a: Row, b: Row)
    ensures var order := [Covered, Uncovered, Attribute, Excluded, DiscoOnly, RegistryDrift];
      RowLess(a, b) <==>
        (exists i, j :: 0 <= i < j < |order| && order[i] == a.bucket && order[j] == b.bucket)
        || (a.bucket == b.bucket && Lex.Less(a.service, b.service))
        || (a.bucket == b.bucket && a.service == b.service && Lex.Less(a.key, b.key))
        || (a.bucket == b.bucket && a.service == b.service && a.key == b.key && Lex.Less(a.discoType, b.discoType))
  {
    Lex.Irreflexive(a.service);
    Lex.Irreflexive(a.key);
    var order := [Covered, Uncovered, Attribute, Excluded, DiscoOnly, RegistryDrift];
    assert order[BucketRank(a.bucket)] == a.bucket && order[BucketRank(b.bucket)] == b.bucket;
  }

  method BuildInventory(inp: Inputs) returns (m: Matrix, ghost own: seq<Row>, ghost rest: seq<Row>)
    ensures m.provider == inp.provider && m.pins == inp.pins && m.pairing == inp.paired
    ensures Built(inp, own, rest)
    ensures InReportOrder(own + rest, m.rows) && |m.rows| == |own| + |rest|
    ensures Summarizes(m.rows, m.summary, m.services) && Says(m.rows, m.summary, m.services)
    ensures forall i :: 0 <= i < |own| ==> CandidateShown(inp, inp.candidates[i], own[i])
    ensures forall row :: row in rest <==> LeftOver(inp, row)
  {
    hide Says, CandidateShown, LeftOver, TypesOf, NamesOf, RowFor, CreditedBy, Summarizes, RowLess, DiscoRows, InReportOrder;
    var types := PairedTypes(Pairings(inp));
    var byIdent := TypesByIdent(inp.naming, inp.emits);
    var accounted: set<string> := {};
    var rows := [];
    for i := 0 to |inp.candidates|
      invariant |rows| == i && forall j :: 0 <= j < i ==> RowFor(inp, inp.candidates[j], rows[j])
      invariant accounted == AccountedBy(inp, inp.candidates[..i])
    {
      var row, credited := CandidateRow(inp, types, byIdent, inp.candidates[i]);
      AccountedSnoc(inp, inp.candidates, i);
      accounted := accounted + credited;
      rows := rows + [row];
    }
    assert inp.candidates[..|inp.candidates|] == inp.candidates;
    own, rest := rows, DiscoRows(inp, accounted, inp.emits);
    RowsShown(inp, own, rest);
    rows := AppendDiscoRows(inp, accounted, rows);
    SortedInReportOrder(rows);
    rows := StableSort(RowLess, rows);
    var summary, services := Summarize(rows);
    m := Matrix(inp.provider, inp.pins, inp.paired, summary, services, rows);
  }

  lemma RowsShown(inp: Inputs, own: seq<Row>, rest: seq<Row>)
    requires Built(inp, own, rest)
    ensures forall i :: 0 <= i < |own| ==> CandidateShown(inp, inp.candidates[i], own[i])
    ensures forall row :: row in rest <==> LeftOver(inp, row)
  {
    hide RowFor, CandidateShown, LeftOver;
    forall i | 0 <= i < |own| ensures CandidateShown(inp, inp.candidates[i], own[i]) {
      RowExact(inp, inp.candidates[i], own[i]);
    }
    forall row ensures row in rest <==> LeftOver(inp, row) {
      LeftOverExact(inp, row);
    }
  }

  /** The second loop: the types nobody accounts for. */
  method AppendDiscoRows(inp: Inputs, accounted: set<string>, own: seq<Row>) returns (rows: seq<Row>)
    ensures rows == own + DiscoRows(inp, accounted, inp.emits)
  {
    rows := own;
    for i := 0 to |inp.emits|
      invariant rows == own + DiscoRows(inp, accounted, inp.emits[..i])
    {
      var e := inp.emits[i];
      DiscoRowsSnoc(inp, accounted, i);
      hide DiscoRows;
      if e.discoType in accounted {
        continue;
      }
      var reason := UNEXPLAINED;
      if !inp.paired {
        reason := "pairing-unavailable";
      } else if e.discoType in inp.unpaired && inp.unpaired[e.discoType] != UNEXPLAINED {
        reason := "explained: " + inp.unpaired[e.discoType];
      }
      rows := rows + [Row(e.service, "", e.discoType, [], DiscoOnly, 0, "", reason, [])];
    }
    assert inp.emits[..|inp.emits|] == inp.emits;
  }

  lemma DiscoRowsSnoc(inp: Inputs, accounted: set<string>, i: nat)
    requires i < |inp.emits|
    ensures DiscoRows(inp, accounted, inp.emits[..i+1]) ==
      DiscoRows(inp, accounted, inp.emits[..i]) + if inp.emits[i].discoType in accounted then [] else [DiscoRow(inp, inp.emits[i])]
  {
    assert inp.emits[..i+1][..i] == inp.emits[..i];
  }

  lemma AccountedSnoc(inp: Inputs, cs: seq<Candidate>, i: nat)
    requires i < |cs|
    ensures AccountedBy(inp, cs[..i+1]) == AccountedBy(inp, cs[..i]) + CreditedBy(inp, cs[i])
  {
    hide CreditedBy;
    assert cs[..i+1] == cs[..i] + [cs[i]];
  }

  // ------------------------------------------------------ every type has a row

  lemma {:induction false} DiscoRowsExact(inp: Inputs, accounted: set<string>, emits: seq<TypeDecl>, row: Row)
    ensures row in DiscoRows(inp, accounted, emits) <==>
      exists e :: e in emits && e.discoType !in accounted && row == DiscoRow(inp, e)
  {
    if emits != [] {
      var init, last := emits[..|emits|-1], emits[|emits|-1];
      hide DiscoRow;
      DiscoRowsExact(inp, accounted, init, row);
      assert forall e :: e in emits <==> e in init || e == last;
    }
  }

  /** The row of a type appears exactly when no candidate is credited with it. */
  lemma TypeRowExact(inp: Inputs, own: seq<Row>, rest: seq<Row>, e: TypeDecl)
    requires Built(inp, own, rest) && e in inp.emits
    ensures DiscoRow(inp, e) in rest <==> e.discoType !in AccountedBy(inp, inp.candidates)
  {
    hide RowFor, CreditedBy, DiscoReason;
    DiscoRowsExact(inp, AccountedBy(inp, inp.candidates), inp.emits, DiscoRow(inp, e));
  }

  predicate CreditsByEvidence(inp: Inputs, c: Candidate, t: string) {
    var ps := Pairings(inp);
    PairedIn(ps, c.key, t) || (!ListedIn(ps, c.key) && NameMatch(inp, c) == Some(t))
  }

  /** A type loses its own row exactly to a candidate it is paired with, or to an
      unlisted candidate it is the first to match by name. */
  lemma DiscoOnlyExact(inp: Inputs, own: seq<Row>, rest: seq<Row>, e: TypeDecl)
    requires Built(inp, own, rest) && e in inp.emits
    ensures DiscoRow(inp, e) in rest <==>
      forall c :: c in inp.candidates ==> !CreditsByEvidence(inp, c, e.discoType)
  {
    TypeRowExact(inp, own, rest, e);
    hide RowFor, NameMatch, DiscoRow, DiscoRows, Built;
    forall c ensures e.discoType in CreditedBy(inp, c) <==> CreditsByEvidence(inp, c, e.discoType) {
      PairedIsListed(Pairings(inp), c.key);
    }
  }

  /** A row names only types it is credited with. */
  lemma RowNamesOnlyCredited(inp: Inputs, c: Candidate, shown: string, types: seq<string>, reason: string, t: string)
    requires Displays(inp, c, shown, types, reason) && t != "" && (shown == t || t in types)
    ensures t in CreditedBy(inp, c)
  {
    hide Lex.Less, FullMatch, LeafMatch, ListedIn, NameMatch, PairedIn;
    var paired := PairedSet(Pairings(inp), c.key);
    PairedIsListed(Pairings(inp), c.key);
    if paired != {} && shown == t {
      BestInSet(inp.naming, paired, inp.naming.ofCandidate(c), t);
    }
  }

  lemma RowNamesExact(inp: Inputs, c: Candidate, row: Row, t: string)
    requires RowFor(inp, c, row) && t != ""
    ensures RowNames(row, t) <==> t in CreditedBy(inp, c)
  {
    hide Displays, CreditedBy, Bucketed;
    var reason: string :| Displays(inp, c, row.discoType, row.discoTypes, reason);
    if RowNames(row, t) {
      RowNamesOnlyCredited(inp, c, row.discoType, row.discoTypes, reason, t);
    }
    if t in CreditedBy(inp, c) {
      RowNamesCredited(inp, c, row.discoType, row.discoTypes, reason, t);
    }
  }

  /** Every emitted type is named on a candidate's row or has its own, and not both. */
  lemma EveryTypeHasOneHome(inp: Inputs, own: seq<Row>, rest: seq<Row>, e: TypeDecl)
    requires Built(inp, own, rest) && e in inp.emits && e.discoType != ""
    ensures (exists row :: row in own && RowNames(row, e.discoType)) <==> DiscoRow(inp, e) !in rest
  {
    var t := e.discoType;
    TypeRowExact(inp, own, rest, e);
    hide RowFor, CreditedBy, DiscoRow, DiscoRows, RowNames;
    forall i | 0 <= i < |own| ensures RowNames(own[i], t) <==> t in CreditedBy(inp, inp.candidates[i]) {
      RowNamesExact(inp, inp.candidates[i], own[i], t);
    }
    if t in AccountedBy(inp, inp.candidates) {
      var c :| c in inp.candidates && t in CreditedBy(inp, c);
      var i :| 0 <= i < |inp.candidates| && inp.candidates[i] == c;
      assert own[i] in own;
    }
  }

  // -------------------------------------------------- the unexplained stay seen

  predicate Unexplained(inp: Inputs, t: string) {
    t in inp.unpaired && inp.unpaired[t] == UNEXPLAINED
  }

  /** The walk could not explain the type and no candidate's pairing stores it. */
  predicate Unattached(inp: Inputs, t: string) {
    Unexplained(inp, t) && forall c :: c in inp.candidates ==> !PairedIn(Pairings(inp), c.key, t)
  }

  /** Such a type keeps its own row, exactly when the pairings are not nil or no
      candidate's name matches it first; the row says unexplained when the walk ran. */
  lemma UnexplainedStaysVisible(inp: Inputs, own: seq<Row>, rest: seq<Row>, e: TypeDecl)
    requires Built(inp, own, rest) && e in inp.emits && Unattached(inp, e.discoType)
    ensures DiscoRow(inp, e) in rest <==>
      inp.pairings.Some? ||
      forall c :: c in inp.candidates ==> FirstNamed(inp.naming, inp.emits, inp.naming.ofCandidate(c)) != Some(e.discoType)
    ensures DiscoRow(inp, e).reason == if inp.paired then UNEXPLAINED else "pairing-unavailable"
  {
    DiscoOnlyExact(inp, own, rest, e);
    hide Built, FirstNamed, PairedIn, DiscoRows;
    if inp.pairings == None {
      forall c: Candidate ensures !ListedIn(Pairings(inp), c.key) {
      }
    }
  }

  /** So a walk that ran and anchored nothing, leaving a nil slice, lets a name alone hide
      an unexplained type, whatever the names are. */
  lemma NilPairingsHide(n: Naming, c: Candidate, e: TypeDecl, own: seq<Row>, rest: seq<Row>)
    requires n.ofType(e.discoType) == [n.ofCandidate(c)]
    requires Built(Inputs("aws", map[], [e], [c], None, map[e.discoType := UNEXPLAINED], true, n), own, rest)
    ensures rest == []
  {
    var inp := Inputs("aws", map[], [e], [c], None, map[e.discoType := UNEXPLAINED], true, n);
    hide RowFor, DiscoRow;
    var t := e.discoType;
    assert n.ofCandidate(c) in n.ofType(t);
    assert e in [e];
    assert FirstNamed(n, [e], n.ofCandidate(c)) == Some(t);
    assert !ListedIn(Pairings(inp), c.key);
    assert c in inp.candidates && t in CreditedBy(inp, c);
    var accounted := AccountedBy(inp, inp.candidates);
    assert t in accounted;
    assert [e][..0] == [];
    assert DiscoRows(inp, accounted, [e]) == DiscoRows(inp, accounted, []);
  }

  // -------------------------------------------------------------- the counts

  lemma {:induction false} CountJoin(a: seq<Row>, b: seq<Row>, k: Bucket)
    ensures Count(a + b, k) == Count(a, k) + Count(b, k)
  {
    if b == [] {
      assert a + b == a;
    } else {
      CountJoin(a, b[..|b|-1], k);
      assert (a + b)[..|a + b|-1] == a + b[..|b|-1];
    }
  }

  lemma SplitMultiset(b: seq<Row>, i: nat)
    requires i < |b|
    ensures b == b[..i] + [b[i]] + b[i+1..]
    ensures multiset(b) == multiset(b[..i] + b[i+1..]) + multiset{b[i]}
  {
    assert b == b[..i] + [b[i]] + b[i+1..];
  }

  lemma CountOne(row: Row, k: Bucket)
    ensures Count([row], k) == if row.bucket == k then 1 else 0
  {
    assert [row][..0] == [];
  }

  lemma CountWithout(b: seq<Row>, i: nat, k: Bucket)
    requires i < |b|
    ensures Count(b, k) == Count(b[..i] + b[i+1..], k) + if b[i].bucket == k then 1 else 0
  {
    var l, x, r := b[..i], [b[i]], b[i+1..];
    CountOne(b[i], k);
    hide Count;
    CountJoin(l, x, k);
    CountJoin(l + x, r, k);
    CountJoin(l, r, k);
    assert b == l + x + r;
  }

  lemma LastOccurs(a: seq<Row>, b: seq<Row>) returns (i: nat)
    requires multiset(a) == multiset(b) && a != []
    ensures i < |b| && b[i] == a[|a|-1]
    ensures multiset(a[..|a|-1]) == multiset(b[..i] + b[i+1..])
  {
    var x := a[|a|-1];
    SameElements(a, b);
    assert x in a;
    i :| 0 <= i < |b| && b[i] == x;
    SplitMultiset(b, i);
    assert a == a[..|a|-1] + [x];
    assert multiset(a[..|a|-1]) == multiset(a) - multiset{x};
    assert multiset(b[..i] + b[i+1..]) == multiset(b) - multiset{x};
  }

  lemma {:induction false} CountPermuted(a: seq<Row>, b: seq<Row>, k: Bucket)
    requires multiset(a) == multiset(b)
    ensures Count(a, k) == Count(b, k)
  {
    if a == [] {
      assert |multiset(b)| == 0;
    } else {
      var i := LastOccurs(a, b);
      CountWithout(b, i, k);
      CountPermuted(a[..|a|-1], b[..i] + b[i+1..], k);
    }
  }

  /** The resource candidates that are not preview-only. */
  function UniverseSize(cs: seq<Candidate>): nat {
    if cs == [] then 0
    else
      var c := cs[|cs|-1];
      UniverseSize(cs[..|cs|-1]) + if !Preview(c) && c.class_ == ResourceClass then 1 else 0
  }

  lemma {:induction false} OwnCounts(inp: Inputs, cs: seq<Candidate>, own: seq<Row>)
    requires |own| == |cs| && forall i :: 0 <= i < |own| ==> RowFor(inp, cs[i], own[i])
    ensures Count(own, Covered) + Count(own, Uncovered) == UniverseSize(cs)
    ensures Count(own, DiscoOnly) == 0 && Count(own, RegistryDrift) == 0
  {
    if own != [] {
      var n := |own| - 1;
      hide RowFor;
      OwnCounts(inp, cs[..n], own[..n]);
      OwnBucket(inp, cs[n], own[n]);
    }
  }

  lemma OwnBucket(inp: Inputs, c: Candidate, row: Row)
    requires RowFor(inp, c, row)
    ensures row.bucket == Covered || row.bucket == Uncovered <==> !Preview(c) && c.class_ == ResourceClass
    ensures row.bucket != DiscoOnly && row.bucket != RegistryDrift
  {
    hide Displays, ExcludedReason, ListedIn;
  }

  lemma {:induction false} RestCounts(inp: Inputs, accounted: set<string>, emits: seq<TypeDecl>)
    ensures var rest := DiscoRows(inp, accounted, emits);
      Count(rest, DiscoOnly) == |rest| && Count(rest, Covered) == Count(rest, Uncovered) == 0
  {
    if emits != [] {
      var init, e := emits[..|emits|-1], emits[|emits|-1];
      hide DiscoReason;
      RestCounts(inp, accounted, init);
      var before := DiscoRows(inp, accounted, init);
      var more := if e.discoType in accounted then [] else [DiscoRow(inp, e)];
      CountJoin(before, more, DiscoOnly);
      CountJoin(before, more, Covered);
      CountJoin(before, more, Uncovered);
      assert |more| == 1 ==> more[..0] == [];
    }
  }

  /** One row per candidate and per unaccounted type: the denominator counts the resource
      candidates of the universe, the disco-only count the types left over, and the
      buckets together every row. */
  lemma CountsConserve(inp: Inputs, m: Matrix, own: seq<Row>, rest: seq<Row>)
    requires Built(inp, own, rest) && InReportOrder(own + rest, m.rows)
    requires Summarizes(m.rows, m.summary, m.services)
    ensures m.summary.covered + m.summary.uncovered == UniverseSize(inp.candidates)
    ensures m.summary.discoOnly == |rest|
    ensures m.summary.covered + m.summary.uncovered + m.summary.attribute + m.summary.excluded == |inp.candidates|
  {
    hide RowFor, Report, Percent, DiscoRow, UniverseSize;
    OwnCounts(inp, inp.candidates, own);
    RestCounts(inp, AccountedBy(inp, inp.candidates), inp.emits);
    forall k ensures Count(m.rows, k) == Count(own, k) + Count(rest, k) {
      CountPermuted(m.rows, own + rest, k);
      CountJoin(own, rest, k);
    }
    BucketsSumToRows(own);
    BucketsSumToRows(rest);
  }
}
