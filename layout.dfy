/** The table layout of the coupon page in `js/app.js`: the amount shortening
    used on narrow screens, and the rows `renderCoupons` (issued table) and
    `renderCompletedCoupons` (completed table) build from the two lists the
    API returns. The two tables stand side by side, and the completed table
    is laid out "in issue order": one block of rows per issued coupon. Rows
    are kept abstract (their order, the record they show and the computed
    cells), not as markup. */
module Layout {
  import opened Js

  /** An issued coupon as the client holds it: a listed row with its
      optional `order`. */
  datatype IssuedCoupon = IssuedCoupon(
    id: int, order: Option<int>, date: string, worker: string, content: string,
    amount: string, issuer: Option<string>)

  /** A completed coupon as the client holds it. */
  datatype CompletedCoupon = CompletedCoupon(
    id: int, issuedId: Option<int>, date: string, performer: Option<string>,
    content: string, amount: string, photo: Option<string>)

  /** The `mode` argument of the two render functions. */
  datatype Mode = Desktop | Content | MobileContent | Mobile

  // ---------------------------------------------------------------------
  // formatAmountForMobile
  // ---------------------------------------------------------------------

  /** The index of the first `)` in `t`, if any. */
  function FirstClose(t: string): (r: Option<nat>)
    ensures r.None? <==> forall i :: 0 <= i < |t| ==> t[i] != ')'
    ensures r.Some? ==> r.value < |t| && t[r.value] == ')'
    ensures r.Some? ==> forall i :: 0 <= i < r.value ==> t[i] != ')'
  {
    if t == [] then None
    else if t[0] == ')' then Some(0)
    else match FirstClose(t[1..])
      case None => None
      case Some(j) => Some(j + 1)
  }

  /** `s.replace(/\([^)]*\)/g, '')`: scanning left to right, a `(` with a
      `)` somewhere after it is dropped together with everything up to and
      including the first such `)`; any other character is kept. */
  function StripGroups(s: string): string
    decreases |s|
  {
    if s == [] then []
    else if s[0] == '(' && FirstClose(s[1..]).Some? then
      StripGroups(s[FirstClose(s[1..]).value + 2..])
    else [s[0]] + StripGroups(s[1..])
  }

  /** No `(` occurs anywhere before a `)`: nothing is left for the pattern
      to match. */
  ghost predicate NoGroup(s: string) {
    forall i, j :: 0 <= i < j < |s| && s[i] == '(' ==> s[j] != ')'
  }

  /** `formatAmountForMobile(amount)` with `window.innerWidth <= 768` given
      as `narrow`: "" for an empty amount, the amount itself on a wide
      screen, and on a narrow one the amount without its parenthesised
      groups, trimmed. */
  function FormatAmountForMobile(amount: string, narrow: bool): string {
    if amount == "" then ""
    else if narrow then Trim(StripGroups(amount))
    else amount
  }

  /** An empty amount stays empty, a wide screen shows the amount as it is,
      and on a narrow one the result has no group left and no white space
      at either end. */
  lemma FormatAmountShape(amount: string, narrow: bool)
    ensures amount == "" ==> FormatAmountForMobile(amount, narrow) == ""
    ensures !narrow ==> FormatAmountForMobile(amount, narrow) == amount
    ensures narrow ==> NoGroup(FormatAmountForMobile(amount, narrow))
    ensures narrow ==> Trim(FormatAmountForMobile(amount, narrow)) == FormatAmountForMobile(amount, narrow)
  {
    if amount != "" && narrow {
      var t := StripGroups(amount);
      StripGroupsNoGroup(amount);
      TrimIdempotent(t);
      TrimKeepsNoGroup(t);
    }
  }

  lemma {:induction false} NoCloseUnchanged(t: string)
    requires forall i :: 0 <= i < |t| ==> t[i] != ')'
    ensures StripGroups(t) == t
  {
    if t != [] {
      assert forall i :: 0 <= i < |t[1..]| ==> t[1..][i] == t[i + 1];
      NoCloseUnchanged(t[1..]);
      assert t == [t[0]] + t[1..];
    }
  }

  /** Whatever the input, the result holds no group any more. */
  lemma {:induction false} StripGroupsNoGroup(s: string)
    ensures NoGroup(StripGroups(s))
    decreases |s|
  {
    if s == [] {
    } else if s[0] == '(' && FirstClose(s[1..]).Some? {
      StripGroupsNoGroup(s[FirstClose(s[1..]).value + 2..]);
    } else if s[0] == '(' {
      assert forall i :: 0 <= i < |s[1..]| ==> s[1..][i] != ')';
      NoCloseUnchanged(s[1..]);
      var r := StripGroups(s);
      assert r == [s[0]] + s[1..];
      forall i, j | 0 <= i < j < |r| && r[i] == '(' ensures r[j] != ')' {
        assert r[j] == s[1..][j - 1];
      }
    } else {
      StripGroupsNoGroup(s[1..]);
      var rest := StripGroups(s[1..]);
      var r := [s[0]] + rest;
      forall i, j | 0 <= i < j < |r| && r[i] == '(' ensures r[j] != ')' {
        assert r[i] == rest[i - 1] && r[j] == rest[j - 1];
      }
    }
  }

  /** A string without groups is left as it is. */
  lemma {:induction false} NoGroupFixpoint(s: string)
    requires NoGroup(s)
    ensures StripGroups(s) == s
  {
    if s != [] {
      var tail := s[1..];
      assert NoGroup(tail) by {
        forall i, j | 0 <= i < j < |tail| && tail[i] == '(' ensures tail[j] != ')' {
          assert tail[i] == s[i + 1] && tail[j] == s[j + 1];
        }
      }
      if s[0] == '(' {
        assert forall i :: 0 <= i < |tail| ==> tail[i] == s[i + 1];
      }
      NoGroupFixpoint(tail);
      assert s == [s[0]] + tail;
    }
  }

  /** Trimming cannot bring a group back. */
  lemma TrimKeepsNoGroup(s: string)
    requires NoGroup(s)
    ensures NoGroup(Trim(s))
  {
    TrimIsSlice(s);
    var a := TrimFrom(s);
    var t := Trim(s);
    forall i, j | 0 <= i < j < |t| && t[i] == '(' ensures t[j] != ')' {
      assert t[i] == s[a + i] && t[j] == s[a + j];
    }
  }

  /** Shortening an amount twice gives what shortening it once does. */
  lemma FormatAmountIdempotent(amount: string, narrow: bool)
    ensures FormatAmountForMobile(FormatAmountForMobile(amount, narrow), narrow)
         == FormatAmountForMobile(amount, narrow)
  {
    var r := FormatAmountForMobile(amount, narrow);
    FormatAmountShape(amount, narrow);
    if narrow && r != "" {
      NoGroupFixpoint(r);
    }
  }

  /** A text without `(` followed by one closed group loses exactly the
      group. */
  lemma {:induction false} StripTrailingGroup(a: string, b: string)
    requires forall i :: 0 <= i < |a| ==> a[i] != '('
    requires forall i :: 0 <= i < |b| ==> b[i] != ')'
    ensures StripGroups(a + "(" + b + ")") == a
  {
    var s := a + "(" + b + ")";
    if a == [] {
      assert s[1..] == b + ")";
      assert FirstClose(s[1..]) == Some(|b|) by {
        FirstCloseAfter(b);
      }
      assert s[|b| + 2..] == [];
    } else {
      assert s[1..] == a[1..] + "(" + b + ")";
      StripTrailingGroup(a[1..], b);
      assert a == [a[0]] + a[1..];
    }
  }

  lemma {:induction false} FirstCloseAfter(b: string)
    requires forall i :: 0 <= i < |b| ==> b[i] != ')'
    ensures FirstClose(b + ")") == Some(|b|)
  {
    if b != [] {
      assert (b + ")")[1..] == b[1..] + ")";
      FirstCloseAfter(b[1..]);
    }
  }

  lemma SampleStripped()
    ensures StripGroups("3시금(1시간 30분)") == "3시금"
  {
    var a, b := "3시금", "1시간 30분";
    assert forall i :: 0 <= i < |a| ==> a[i] != '(';
    assert forall i :: 0 <= i < |b| ==> b[i] != ')';
    StripTrailingGroup(a, b);
    assert a + "(" + b + ")" == "3시금(1시간 30분)";
  }

  lemma SampleTrimmed()
    ensures Trim("3시금") == "3시금"
  {
    assert !IsSpace('3') && !IsSpace('금');
    assert TrimStart("3시금") == "3시금";
  }

  /** The sample amount of the seed data loses its duration on a narrow
      screen. */
  lemma FormatAmountExample()
    ensures FormatAmountForMobile("3시금(1시간 30분)", true) == "3시금"
  {
    SampleStripped();
    SampleTrimmed();
  }

  // ---------------------------------------------------------------------
  // Shared pieces of the two tables
  // ---------------------------------------------------------------------

  /** `coupon.order || index + 1`: the order both tables print. */
  function Label(c: IssuedCoupon, index: nat): int {
    if TruthyNumber(c.order) then c.order.value else index + 1
  }

  /** The issuer's name as `issued.issuer || ''`. */
  function IssuerName(c: IssuedCoupon): string {
    TextOrEmpty(c.issuer)
  }

  /** `isMobile` of renderCoupons. */
  predicate IssuedIsMobile(mode: Mode, narrow: bool) {
    narrow || mode == MobileContent
  }

  /** `isMobile` of renderCompletedCoupons. */
  predicate CompletedIsMobile(mode: Mode, narrow: bool) {
    narrow || mode == MobileContent || mode == Mobile
  }

  /** The amount cell: shortened when the table is in its mobile layout. The
      shortening itself still asks the window width. */
  function ShownAmount(amount: string, mobile: bool, narrow: bool): string {
    if mobile then FormatAmountForMobile(amount, narrow) else amount
  }

  // ---------------------------------------------------------------------
  // renderCoupons: the issued table
  // ---------------------------------------------------------------------

  datatype IssuedRow =
    | IssuedData(order: int, coupon: IssuedCoupon, amount: string)
    | IssuedBlank(order: int)

  /** The completion counts only records with a truthy `issued_id`. */
  predicate CountsToward(c: CompletedCoupon, id: int) {
    TruthyNumber(c.issuedId) && c.issuedId.value == id
  }

  /** `completedCountByIssuedId[id] || 0` once the counting loop is done. */
  function CountFor(cs: seq<CompletedCoupon>, id: int): nat {
    if cs == [] then 0
    else CountFor(cs[..|cs| - 1], id) + (if CountsToward(cs[|cs| - 1], id) then 1 else 0)
  }

  /** `n` blank rows with one order. */
  function Blanks(order: int, n: nat): (r: seq<IssuedRow>)
    ensures |r| == n
    ensures forall i :: 0 <= i < n ==> r[i] == IssuedBlank(order)
  {
    seq(n, _ => IssuedBlank(order))
  }

  /** The rows of one issued coupon: its data row, then one blank row per
      completion beyond the first. */
  function IssuedBlock(c: IssuedCoupon, index: nat, count: nat, mobile: bool, narrow: bool): seq<IssuedRow> {
    [IssuedData(Label(c, index), c, ShownAmount(c.amount, mobile, narrow))]
      + Blanks(Label(c, index), if count > 1 then count - 1 else 0)
  }

  /** The issued table: the blocks of the coupons in list order. */
  function IssuedTable(coupons: seq<IssuedCoupon>, completed: seq<CompletedCoupon>,
                       mobile: bool, narrow: bool): seq<IssuedRow>
  {
    if coupons == [] then []
    else
      var n := |coupons| - 1;
      IssuedTable(coupons[..n], completed, mobile, narrow)
        + IssuedBlock(coupons[n], n, CountFor(completed, coupons[n].id), mobile, narrow)
  }

  /** One more coupon appends its block. */
  lemma IssuedTableStep(coupons: seq<IssuedCoupon>, completed: seq<CompletedCoupon>, index: nat,
                        mobile: bool, narrow: bool)
    requires index < |coupons|
    ensures IssuedTable(coupons[..index + 1], completed, mobile, narrow)
         == IssuedTable(coupons[..index], completed, mobile, narrow)
            + IssuedBlock(coupons[index], index, CountFor(completed, coupons[index].id), mobile, narrow)
  {
    assert coupons[..index + 1][..index] == coupons[..index];
  }

  function Lookup(m: map<int, nat>, k: int): nat {
    if k in m then m[k] else 0
  }

  /** The first loop of renderCoupons: `completedCountByIssuedId`. */
  method CountByIssuedId(completed: seq<CompletedCoupon>) returns (countById: map<int, nat>)
    ensures forall id :: Lookup(countById, id) == CountFor(completed, id)
  {
    countById := map[];
    for j := 0 to |completed|
      invariant forall id :: Lookup(countById, id) == CountFor(completed[..j], id)
    {
      var c := completed[j];
      assert completed[..j + 1][..j] == completed[..j];
      if TruthyNumber(c.issuedId) {
        countById := countById[c.issuedId.value := Lookup(countById, c.issuedId.value) + 1];
      }
    }
    assert completed[..|completed|] == completed;
  }

  /** The inner loop of renderCoupons: `n` blank rows pushed onto the rows
      built so far. */
  method PushBlanks(rows: seq<IssuedRow>, order: int, n: nat) returns (out: seq<IssuedRow>)
    ensures out == rows + Blanks(order, n)
  {
    out := rows;
    for i := 0 to n
      invariant out == rows + Blanks(order, i)
    {
      out := out + [IssuedBlank(order)];
    }
  }

  /** renderCoupons: count completions per issued id into a dictionary,
      then push each coupon's data row and its blank rows. */
  method RenderCoupons(coupons: seq<IssuedCoupon>, completed: seq<CompletedCoupon>,
                       mode: Mode, narrow: bool) returns (rows: seq<IssuedRow>)
    ensures rows == IssuedTable(coupons, completed, IssuedIsMobile(mode, narrow), narrow)
  {
    var countById := CountByIssuedId(completed);
    var mobile := IssuedIsMobile(mode, narrow);
    rows := [];
    for index := 0 to |coupons|
      invariant rows == IssuedTable(coupons[..index], completed, mobile, narrow)
    {
      var coupon := coupons[index];
      var order := Label(coupon, index);
      ghost var before := rows;
      var data := IssuedData(order, coupon, ShownAmount(coupon.amount, mobile, narrow));
      rows := rows + [data];
      var completedCount := Lookup(countById, coupon.id);
      assert completedCount == CountFor(completed, coupon.id);
      if completedCount > 1 {
        rows := PushBlanks(rows, order, completedCount - 1);
        assert rows == before + ([data] + Blanks(order, completedCount - 1));
      } else {
        assert rows == before + ([data] + Blanks(order, 0));
      }
      assert rows == before + IssuedBlock(coupon, index, completedCount, mobile, narrow);
      IssuedTableStep(coupons, completed, index, mobile, narrow);
    }
    assert coupons[..|coupons|] == coupons;
  }

  // ---------------------------------------------------------------------
  // renderCompletedCoupons: the completed table
  // ---------------------------------------------------------------------

  /** The photo cell: no column at all in the mobile layout, else the image
      or a dash. */
  datatype PhotoCell = NoPhotoColumn | NoPhoto | Photo(src: string)

  datatype CompletedRow =
    | CompletedData(order: int, worker: string, completion: CompletedCoupon, amount: string, photo: PhotoCell)
    | CompletedBlank(order: int, worker: string, photo: PhotoCell)

  /** `completedMap[key] || []` once the grouping loop is done: the
      completions with that `issued_id`, in list order. */
  function Group(cs: seq<CompletedCoupon>, key: Option<int>): seq<CompletedCoupon> {
    if cs == [] then []
    else
      var n := |cs| - 1;
      Group(cs[..n], key) + (if cs[n].issuedId == key then [cs[n]] else [])
  }

  /** A group holds exactly the completions with its key. */
  lemma {:induction false} GroupMembers(cs: seq<CompletedCoupon>, key: Option<int>)
    ensures forall c :: c in Group(cs, key) <==> c in cs && c.issuedId == key
  {
    if cs != [] {
      var n := |cs| - 1;
      GroupMembers(cs[..n], key);
      assert cs == cs[..n] + [cs[n]];
    }
  }

  function PhotoOf(c: CompletedCoupon, mobile: bool): PhotoCell {
    if mobile then NoPhotoColumn else if TruthyText(c.photo) then Photo(c.photo.value) else NoPhoto
  }

  /** One data row per completion of `g`, in order. */
  function DataRows(order: int, worker: string, g: seq<CompletedCoupon>, mobile: bool, narrow: bool): seq<CompletedRow> {
    if g == [] then []
    else
      var n := |g| - 1;
      DataRows(order, worker, g[..n], mobile, narrow)
        + [CompletedData(order, worker, g[n], ShownAmount(g[n].amount, mobile, narrow), PhotoOf(g[n], mobile))]
  }

  lemma DataRowsStep(order: int, worker: string, g: seq<CompletedCoupon>, i: nat, mobile: bool, narrow: bool)
    requires i < |g|
    ensures DataRows(order, worker, g[..i + 1], mobile, narrow)
         == DataRows(order, worker, g[..i], mobile, narrow)
            + [CompletedData(order, worker, g[i], ShownAmount(g[i].amount, mobile, narrow), PhotoOf(g[i], mobile))]
  {
    assert g[..i + 1][..i] == g[..i];
  }

  /** The rows under one issued coupon: its completions, or one blank row
      when it has none. */
  function CompletedBlock(c: IssuedCoupon, index: nat, g: seq<CompletedCoupon>, mobile: bool, narrow: bool): seq<CompletedRow> {
    if g == [] then [CompletedBlank(Label(c, index), IssuerName(c), if mobile then NoPhotoColumn else NoPhoto)]
    else DataRows(Label(c, index), IssuerName(c), g, mobile, narrow)
  }

  /** The completed table: the blocks of the issued coupons in list order. */
  function CompletedTable(issued: seq<IssuedCoupon>, completed: seq<CompletedCoupon>,
                          mobile: bool, narrow: bool): seq<CompletedRow>
  {
    if issued == [] then []
    else
      var n := |issued| - 1;
      CompletedTable(issued[..n], completed, mobile, narrow)
        + CompletedBlock(issued[n], n, Group(completed, Some(issued[n].id)), mobile, narrow)
  }

  /** One more issued coupon appends its block. */
  lemma CompletedTableStep(issued: seq<IssuedCoupon>, completed: seq<CompletedCoupon>, index: nat,
                           mobile: bool, narrow: bool)
    requires index < |issued|
    ensures CompletedTable(issued[..index + 1], completed, mobile, narrow)
         == CompletedTable(issued[..index], completed, mobile, narrow)
            + CompletedBlock(issued[index], index, Group(completed, Some(issued[index].id)), mobile, narrow)
  {
    assert issued[..index + 1][..index] == issued[..index];
  }

  function GroupLookup(m: map<Option<int>, seq<CompletedCoupon>>, k: Option<int>): seq<CompletedCoupon> {
    if k in m then m[k] else []
  }

  /** The first loop of renderCompletedCoupons: `completedMap`. */
  method GroupByIssuedId(completed: seq<CompletedCoupon>) returns (completedMap: map<Option<int>, seq<CompletedCoupon>>)
    ensures forall k :: GroupLookup(completedMap, k) == Group(completed, k)
  {
    completedMap := map[];
    for j := 0 to |completed|
      invariant forall k :: GroupLookup(completedMap, k) == Group(completed[..j], k)
    {
      var c := completed[j];
      assert completed[..j + 1][..j] == completed[..j];
      completedMap := completedMap[c.issuedId := GroupLookup(completedMap, c.issuedId) + [c]];
    }
    assert completed[..|completed|] == completed;
  }

  /** The inner loop of renderCompletedCoupons: one data row per completion
      of the group, pushed onto the rows built so far. */
  method PushCompletionRows(rows: seq<CompletedRow>, order: int, worker: string, completedList: seq<CompletedCoupon>,
                            mobile: bool, narrow: bool) returns (out: seq<CompletedRow>)
    ensures out == rows + DataRows(order, worker, completedList, mobile, narrow)
  {
    out := rows;
    for compIndex := 0 to |completedList|
      invariant out == rows + DataRows(order, worker, completedList[..compIndex], mobile, narrow)
    {
      var c := completedList[compIndex];
      DataRowsStep(order, worker, completedList, compIndex, mobile, narrow);
      out := out + [CompletedData(order, worker, c, ShownAmount(c.amount, mobile, narrow), PhotoOf(c, mobile))];
    }
    assert completedList[..|completedList|] == completedList;
  }

  /** The body of the walk over the issued coupons: the rows of one
      coupon's group, or its blank row, pushed onto the rows so far. */
  method PushCompletedBlock(rows: seq<CompletedRow>, coupon: IssuedCoupon, index: nat,
                            completedList: seq<CompletedCoupon>, mobile: bool, narrow: bool)
    returns (out: seq<CompletedRow>)
    ensures out == rows + CompletedBlock(coupon, index, completedList, mobile, narrow)
  {
    var order := Label(coupon, index);
    var worker := IssuerName(coupon);
    if |completedList| > 0 {
      out := PushCompletionRows(rows, order, worker, completedList, mobile, narrow);
    } else {
      out := rows + [CompletedBlank(order, worker, if mobile then NoPhotoColumn else NoPhoto)];
    }
  }

  /** renderCompletedCoupons: group completions by `issued_id` into a
      dictionary, then walk the issued coupons in order. */
  method RenderCompletedCoupons(issued: seq<IssuedCoupon>, completed: seq<CompletedCoupon>,
                                mode: Mode, narrow: bool) returns (rows: seq<CompletedRow>)
    ensures rows == CompletedTable(issued, completed, CompletedIsMobile(mode, narrow), narrow)
  {
    var completedMap := GroupByIssuedId(completed);
    var mobile := CompletedIsMobile(mode, narrow);
    rows := [];
    for index := 0 to |issued|
      invariant rows == CompletedTable(issued[..index], completed, mobile, narrow)
    {
      var coupon := issued[index];
      var completedList := GroupLookup(completedMap, Some(coupon.id));
      assert completedList == Group(completed, Some(coupon.id));
      CompletedTableStep(issued, completed, index, mobile, narrow);
      rows := PushCompletedBlock(rows, coupon, index, completedList, mobile, narrow);
    }
    assert issued[..|issued|] == issued;
  }

  // ---------------------------------------------------------------------
  // The two tables side by side
  // ---------------------------------------------------------------------

  /** For a nonzero id the completion count of renderCoupons is the size of
      the group renderCompletedCoupons lays out; for 0 the count is 0. */
  lemma {:induction false} CountForIsGroupSize(cs: seq<CompletedCoupon>, id: int)
    ensures id != 0 ==> CountFor(cs, id) == |Group(cs, Some(id))|
    ensures id == 0 ==> CountFor(cs, id) == 0
  {
    if cs != [] {
      CountForIsGroupSize(cs[..|cs| - 1], id);
    }
  }

  /** The data rows of a group: one per completion, in the group's order,
      all with the label and worker column of their issued coupon. */
  lemma {:induction false} DataRowsShape(order: int, worker: string, g: seq<CompletedCoupon>, mobile: bool, narrow: bool)
    ensures |DataRows(order, worker, g, mobile, narrow)| == |g|
    ensures forall i :: 0 <= i < |g| ==>
      DataRows(order, worker, g, mobile, narrow)[i]
        == CompletedData(order, worker, g[i], ShownAmount(g[i].amount, mobile, narrow), PhotoOf(g[i], mobile))
  {
    if g != [] {
      var n := |g| - 1;
      DataRowsShape(order, worker, g[..n], mobile, narrow);
      var d := DataRows(order, worker, g, mobile, narrow);
      forall i | 0 <= i < |g|
        ensures d[i] == CompletedData(order, worker, g[i], ShownAmount(g[i].amount, mobile, narrow), PhotoOf(g[i], mobile))
      {
        if i < n {
          assert d[i] == DataRows(order, worker, g[..n], mobile, narrow)[i];
          assert g[..n][i] == g[i];
        }
      }
    }
  }

  /** The rows of an issued coupon: its data row first, then only blank rows;
      one row per completion, and at least one; every row with its label. */
  lemma IssuedBlockShape(c: IssuedCoupon, index: nat, count: nat, mobile: bool, narrow: bool)
    ensures var b := IssuedBlock(c, index, count, mobile, narrow);
      && |b| == (if count > 1 then count else 1)
      && b[0] == IssuedData(Label(c, index), c, ShownAmount(c.amount, mobile, narrow))
      && (forall i :: 1 <= i < |b| ==> b[i] == IssuedBlank(Label(c, index)))
      && (forall i :: 0 <= i < |b| ==> b[i].order == Label(c, index))
  {
  }

  /** The size the issued table should have: over the coupons, the sum of
      the larger of 1 and the coupon's completion count. */
  function RowBudget(coupons: seq<IssuedCoupon>, completed: seq<CompletedCoupon>): nat {
    if coupons == [] then 0
    else
      var n := |coupons| - 1;
      var count := CountFor(completed, coupons[n].id);
      RowBudget(coupons[..n], completed) + (if count > 1 then count else 1)
  }

  /** The issued table has exactly the promised number of rows. */
  lemma {:induction false} IssuedTableSize(coupons: seq<IssuedCoupon>, completed: seq<CompletedCoupon>,
                                           mobile: bool, narrow: bool)
    ensures |IssuedTable(coupons, completed, mobile, narrow)| == RowBudget(coupons, completed)
  {
    if coupons != [] {
      var n := |coupons| - 1;
      IssuedTableSize(coupons[..n], completed, mobile, narrow);
      IssuedBlockShape(coupons[n], n, CountFor(completed, coupons[n].id), mobile, narrow);
    }
  }

  /** The rows under an issued coupon in the completed table: one blank row
      for an empty group, else exactly the group's completions; every row
      with the coupon's label and its issuer in the worker column. */
  lemma CompletedBlockShape(c: IssuedCoupon, index: nat, g: seq<CompletedCoupon>, mobile: bool, narrow: bool)
    ensures var b := CompletedBlock(c, index, g, mobile, narrow);
      && |b| == (if |g| > 1 then |g| else 1)
      && (g == [] ==> b == [CompletedBlank(Label(c, index), IssuerName(c), if mobile then NoPhotoColumn else NoPhoto)])
      && (forall i :: 0 <= i < |g| ==> b[i].CompletedData? && b[i].completion == g[i])
      && (forall i :: 0 <= i < |b| ==> b[i].order == Label(c, index) && b[i].worker == IssuerName(c))
  {
    DataRowsShape(Label(c, index), IssuerName(c), g, mobile, narrow);
  }

  /** The label column of the issued table, top to bottom. */
  function IssuedLabels(rows: seq<IssuedRow>): seq<int> {
    seq(|rows|, i requires 0 <= i < |rows| => rows[i].order)
  }

  /** The label column of the completed table, top to bottom. */
  function CompletedLabels(rows: seq<CompletedRow>): seq<int> {
    seq(|rows|, i requires 0 <= i < |rows| => rows[i].order)
  }

  lemma LabelsAppend(a: seq<IssuedRow>, b: seq<IssuedRow>, c: seq<CompletedRow>, d: seq<CompletedRow>)
    ensures IssuedLabels(a + b) == IssuedLabels(a) + IssuedLabels(b)
    ensures CompletedLabels(c + d) == CompletedLabels(c) + CompletedLabels(d)
  {
    assert forall i :: 0 <= i < |a + b| ==> (a + b)[i] == if i < |a| then a[i] else b[i - |a|];
    assert forall i :: 0 <= i < |c + d| ==> (c + d)[i] == if i < |c| then c[i] else d[i - |c|];
  }

  /** An issued coupon whose completions are counted as its group has as
      many rows on the left as under it on the right, all with its label. */
  lemma BlocksAlign(c: IssuedCoupon, index: nat, g: seq<CompletedCoupon>,
                    issuedMobile: bool, completedMobile: bool, narrow: bool)
    ensures IssuedLabels(IssuedBlock(c, index, |g|, issuedMobile, narrow))
         == CompletedLabels(CompletedBlock(c, index, g, completedMobile, narrow))
  {
    IssuedBlockShape(c, index, |g|, issuedMobile, narrow);
    CompletedBlockShape(c, index, g, completedMobile, narrow);
  }

  /** The point of the layout: as long as no issued coupon has id 0, the two
      tables have the same label column, row for row, whichever layout each
      table is drawn in; in particular they have as many rows. */
  lemma {:induction false} TablesAlign(issued: seq<IssuedCoupon>, completed: seq<CompletedCoupon>,
                                       issuedMobile: bool, completedMobile: bool, narrow: bool)
    requires forall k :: 0 <= k < |issued| ==> issued[k].id != 0
    ensures IssuedLabels(IssuedTable(issued, completed, issuedMobile, narrow))
         == CompletedLabels(CompletedTable(issued, completed, completedMobile, narrow))
    ensures |IssuedTable(issued, completed, issuedMobile, narrow)|
         == |CompletedTable(issued, completed, completedMobile, narrow)|
  {
    if issued != [] {
      var n := |issued| - 1;
      var c := issued[n];
      TablesAlign(issued[..n], completed, issuedMobile, completedMobile, narrow);
      var g := Group(completed, Some(c.id));
      CountForIsGroupSize(completed, c.id);
      BlocksAlign(c, n, g, issuedMobile, completedMobile, narrow);
      LabelsAppend(IssuedTable(issued[..n], completed, issuedMobile, narrow),
                   IssuedBlock(c, n, |g|, issuedMobile, narrow),
                   CompletedTable(issued[..n], completed, completedMobile, narrow),
                   CompletedBlock(c, n, g, completedMobile, narrow));
    }
    assert |IssuedLabels(IssuedTable(issued, completed, issuedMobile, narrow))|
        == |IssuedTable(issued, completed, issuedMobile, narrow)|;
  }

  /** The requirement of TablesAlign cannot be dropped: completions naming
      id 0 are not counted by renderCoupons but are grouped under 0 by
      renderCompletedCoupons, so an issued coupon with id 0 and two such
      completions takes one row on the left and two on the right. */
  lemma ZeroIdBreaksAlignment()
    ensures var c := IssuedCoupon(0, None, "", "", "", "", None);
      var d := CompletedCoupon(1, Some(0), "", None, "", "", None);
      var e := CompletedCoupon(2, Some(0), "", None, "", "", None);
      && |IssuedTable([c], [d, e], false, false)| == 1
      && |CompletedTable([c], [d, e], false, false)| == 2
  {
    var c := IssuedCoupon(0, None, "", "", "", "", None);
    var d := CompletedCoupon(1, Some(0), "", None, "", "", None);
    var e := CompletedCoupon(2, Some(0), "", None, "", "", None);
    assert [c][..0] == [];
    assert [d, e][..1] == [d];
    assert [d][..0] == [];
    assert CountFor([d, e], 0) == 0 by {
      CountForIsGroupSize([d, e], 0);
    }
    assert Group([d], Some(0)) == [d];
    assert Group([d, e], Some(0)) == [d, e];
    CompletedBlockShape(c, 0, [d, e], false, false);
    assert CompletedTable([c], [d, e], false, false) == CompletedBlock(c, 0, [d, e], false, false);
  }

  /** Row `i` of the completed table sits under issued coupon `k`: it bears
      that coupon's label and issuer, and a data row shows a completion of
      the list whose `issued_id` is that coupon's id. */
  ghost predicate RowUnder(row: CompletedRow, issued: seq<IssuedCoupon>, k: int, completed: seq<CompletedCoupon>)
    requires 0 <= k < |issued|
  {
    && row.order == Label(issued[k], k)
    && row.worker == IssuerName(issued[k])
    && (row.CompletedData? ==> row.completion in completed && row.completion.issuedId == Some(issued[k].id))
  }

  /** The row sits under some listed issued coupon. */
  ghost predicate UnderSome(row: CompletedRow, issued: seq<IssuedCoupon>, completed: seq<CompletedCoupon>) {
    exists k :: 0 <= k < |issued| && RowUnder(row, issued, k, completed)
  }

  /** Every row of the completed table sits under one of the issued
      coupons, so a completion whose `issued_id` names no listed coupon is
      never shown. */
  lemma {:induction false} CompletedRowsSitUnderIssued(issued: seq<IssuedCoupon>, completed: seq<CompletedCoupon>,
                                                      mobile: bool, narrow: bool)
    ensures forall i :: 0 <= i < |CompletedTable(issued, completed, mobile, narrow)| ==>
      UnderSome(CompletedTable(issued, completed, mobile, narrow)[i], issued, completed)
  {
    if issued != [] {
      var n := |issued| - 1;
      var c := issued[n];
      var prefix := issued[..n];
      CompletedRowsSitUnderIssued(prefix, completed, mobile, narrow);
      var left := CompletedTable(prefix, completed, mobile, narrow);
      var g := Group(completed, Some(c.id));
      var cb := CompletedBlock(c, n, g, mobile, narrow);
      CompletedBlockShape(c, n, g, mobile, narrow);
      DataRowsShape(Label(c, n), IssuerName(c), g, mobile, narrow);
      GroupMembers(completed, Some(c.id));
      var t := left + cb;
      assert CompletedTable(issued, completed, mobile, narrow) == t;
      forall i | 0 <= i < |t| ensures UnderSome(t[i], issued, completed) {
        if i < |left| {
          assert t[i] == left[i];
          assert UnderSome(left[i], prefix, completed);
          var k :| 0 <= k < |prefix| && RowUnder(left[i], prefix, k, completed);
          assert prefix[k] == issued[k];
          assert RowUnder(t[i], issued, k, completed);
        } else {
          var m := i - |left|;
          assert t[i] == cb[m];
          if cb[m].CompletedData? {
            assert cb[m].completion == g[m];
            assert g[m] in g;
          }
          assert RowUnder(t[i], issued, n, completed);
        }
      }
    }
  }

  /** A data row of the table shows `c`. */
  ghost predicate Shown(c: CompletedCoupon, t: seq<CompletedRow>) {
    exists i :: 0 <= i < |t| && t[i].CompletedData? && t[i].completion == c
  }

  lemma ShownInPrefix(c: CompletedCoupon, left: seq<CompletedRow>, right: seq<CompletedRow>)
    requires Shown(c, left)
    ensures Shown(c, left + right)
  {
    var i :| 0 <= i < |left| && left[i].CompletedData? && left[i].completion == c;
    assert (left + right)[i] == left[i];
  }

  lemma ShownInBlock(c: CompletedCoupon, left: seq<CompletedRow>, x: IssuedCoupon, n: nat,
                     g: seq<CompletedCoupon>, mobile: bool, narrow: bool)
    requires c in g
    ensures Shown(c, left + CompletedBlock(x, n, g, mobile, narrow))
  {
    var m :| 0 <= m < |g| && g[m] == c;
    DataRowsShape(Label(x, n), IssuerName(x), g, mobile, narrow);
    var cb := CompletedBlock(x, n, g, mobile, narrow);
    assert cb[m].CompletedData? && cb[m].completion == c;
    assert (left + cb)[|left| + m] == cb[m];
  }

  /** No completion is lost: one whose `issued_id` is the id of a listed
      issued coupon is shown in a data row of the completed table. */
  lemma {:induction false} CompletionsAreShown(issued: seq<IssuedCoupon>, completed: seq<CompletedCoupon>,
                                               mobile: bool, narrow: bool, c: CompletedCoupon, k: nat)
    requires k < |issued| && c in completed && c.issuedId == Some(issued[k].id)
    ensures Shown(c, CompletedTable(issued, completed, mobile, narrow))
  {
    var n := |issued| - 1;
    var prefix := issued[..n];
    var left := CompletedTable(prefix, completed, mobile, narrow);
    var x := issued[n];
    var g := Group(completed, Some(x.id));
    assert CompletedTable(issued, completed, mobile, narrow) == left + CompletedBlock(x, n, g, mobile, narrow);
    if k < n {
      assert prefix[k] == issued[k];
      CompletionsAreShown(prefix, completed, mobile, narrow, c, k);
      ShownInPrefix(c, left, CompletedBlock(x, n, g, mobile, narrow));
    } else {
      GroupMembers(completed, Some(x.id));
      ShownInBlock(c, left, x, n, g, mobile, narrow);
    }
  }
}
