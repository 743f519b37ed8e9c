/** The request schemas for creating and updating a role ("access"). A parsed
    body lists the failed checks as issues, each with the path to the offending
    field, in the order the schema runs its checks. Fields outside the schema
    are stripped before the service sees the body, so the DTOs carry only the
    schema's fields. */
module UserPipe {
  import opened Results

  /** One entry of `access_detail`: a menu and the role's flags for it. */
  datatype DetailInput = DetailInput(menuId: int, mCreated: int, mUpdated: int, mDeleted: int)

  datatype CreateAccessDto = CreateAccessDto(name: string, description: string, accessDetail: seq<DetailInput>)

  /** The update schema is the create schema merged under `id` and `status`. */
  datatype UpdateAccessDto = UpdateAccessDto(
    id: int,
    status: int,
    name: string,
    description: string,
    accessDetail: seq<DetailInput>)

  function AsCreate(dto: UpdateAccessDto): CreateAccessDto
  {
    CreateAccessDto(dto.name, dto.description, dto.accessDetail)
  }

  datatype PathSegment = Key(key: string) | Index(index: nat)

  /** `too_small` and `too_big`, with the bound the check enforced. */
  datatype IssueCode = TooSmall(minimum: int) | TooBig(maximum: int)

  datatype Issue = Issue(path: seq<PathSegment>, code: IssueCode)

  // ---------------------------------------------------------------------------
  // The schemas as validity predicates.

  predicate IsFlag(v: int) { 0 <= v <= 1 }

  predicate ValidDetail(d: DetailInput) {
    d.menuId >= 1 && IsFlag(d.mCreated) && IsFlag(d.mUpdated) && IsFlag(d.mDeleted)
  }

  predicate ValidCreate(dto: CreateAccessDto) {
    && |dto.name| >= 3
    && |dto.accessDetail| >= 1
    && forall i :: 0 <= i < |dto.accessDetail| ==> ValidDetail(dto.accessDetail[i])
  }

  predicate ValidUpdate(dto: UpdateAccessDto) {
    dto.id >= 1 && IsFlag(dto.status) && ValidCreate(AsCreate(dto))
  }

  // ---------------------------------------------------------------------------
  // The schemas as the parser runs them.

  /** A number's `.min(lo)` check, then its optional `.max(hi)` check. */
  function NumberIssues(path: seq<PathSegment>, v: int, lo: int, hi: Option<int>): (r: seq<Issue>)
    ensures r == [] <==> lo <= v && (hi.Some? ==> v <= hi.value)
    ensures forall k :: 0 <= k < |r| ==> r[k].path == path
  {
    (if v < lo then [Issue(path, TooSmall(lo))] else [])
    + (if hi.Some? && v > hi.value then [Issue(path, TooBig(hi.value))] else [])
  }

  function DetailIssues(d: DetailInput, i: nat): (r: seq<Issue>)
    ensures forall k :: 0 <= k < |r| ==> |r[k].path| == 3 && r[k].path[..2] == [Key("access_detail"), Index(i)]
  {
    var at := [Key("access_detail"), Index(i)];
    assert (at + [Key("menu_id")])[..2] == at && (at + [Key("m_created")])[..2] == at;
    assert (at + [Key("m_updated")])[..2] == at && (at + [Key("m_deleted")])[..2] == at;
    NumberIssues(at + [Key("menu_id")], d.menuId, 1, None)
    + NumberIssues(at + [Key("m_created")], d.mCreated, 0, Some(1))
    + NumberIssues(at + [Key("m_updated")], d.mUpdated, 0, Some(1))
    + NumberIssues(at + [Key("m_deleted")], d.mDeleted, 0, Some(1))
  }

  /** The issues of the entries from position `from` on, entry by entry. */
  function EntriesIssues(ds: seq<DetailInput>, from: nat): seq<Issue>
    decreases |ds| - from
  {
    if from >= |ds| then [] else DetailIssues(ds[from], from) + EntriesIssues(ds, from + 1)
  }

  /** The create schema's checks: `name`, then `access_detail`'s length, then its entries. */
  function CreateIssues(dto: CreateAccessDto): seq<Issue>
  {
    (if |dto.name| < 3 then [Issue([Key("name")], TooSmall(3))] else [])
    + (if |dto.accessDetail| < 1 then [Issue([Key("access_detail")], TooSmall(1))] else [])
    + EntriesIssues(dto.accessDetail, 0)
  }

  /** The update schema's checks: `id`, `status`, then the create schema's. */
  function UpdateIssues(dto: UpdateAccessDto): seq<Issue>
  {
    NumberIssues([Key("id")], dto.id, 1, None)
    + NumberIssues([Key("status")], dto.status, 0, Some(1))
    + CreateIssues(AsCreate(dto))
  }

  /** The validation pipe: the body passes through unchanged, or the issues are reported. */
  function ParseCreate(dto: CreateAccessDto): (r: Result<CreateAccessDto, seq<Issue>>)
    ensures r.Ok? <==> ValidCreate(dto)
    ensures r.Ok? ==> r.value == dto
    ensures r.Err? ==> |r.error| > 0
  {
    CreateIssuesIff(dto);
    var issues := CreateIssues(dto);
    if issues == [] then Ok(dto) else Err(issues)
  }

  function ParseUpdate(dto: UpdateAccessDto): (r: Result<UpdateAccessDto, seq<Issue>>)
    ensures r.Ok? <==> ValidUpdate(dto)
    ensures r.Ok? ==> r.value == dto
    ensures r.Err? ==> |r.error| > 0
  {
    UpdateIssuesIff(dto);
    var issues := UpdateIssues(dto);
    if issues == [] then Ok(dto) else Err(issues)
  }

  // ---------------------------------------------------------------------------
  // The parser and the predicates agree.

  lemma {:induction false} EntriesIssuesIff(ds: seq<DetailInput>, from: nat)
    ensures EntriesIssues(ds, from) == [] <==> forall i :: from <= i < |ds| ==> ValidDetail(ds[i])
    decreases |ds| - from
  {
    if from < |ds| {
      EntriesIssuesIff(ds, from + 1);
      DetailIssuesIff(ds[from], from);
      var head := DetailIssues(ds[from], from);
      var tail := EntriesIssues(ds, from + 1);
      assert EntriesIssues(ds, from) == head + tail;
      assert head + tail == [] <==> head == [] && tail == [];
    }
  }

  lemma DetailIssuesIff(d: DetailInput, i: nat)
    ensures DetailIssues(d, i) == [] <==> ValidDetail(d)
  {
  }

  /** A create body has no issues exactly when it satisfies the schema. */
  lemma CreateIssuesIff(dto: CreateAccessDto)
    ensures CreateIssues(dto) == [] <==> ValidCreate(dto)
  {
    EntriesIssuesIff(dto.accessDetail, 0);
  }

  /** An update body has no issues exactly when its `id` is at least 1, its `status`
      is 0 or 1, and the rest is a valid create body. */
  lemma UpdateIssuesIff(dto: UpdateAccessDto)
    ensures UpdateIssues(dto) == [] <==> ValidUpdate(dto)
    ensures UpdateIssues(dto) == [] <==> dto.id >= 1 && IsFlag(dto.status) && CreateIssues(AsCreate(dto)) == []
  {
    CreateIssuesIff(AsCreate(dto));
  }

  /** Every issue of an entry points at an existing entry of `access_detail`. */
  lemma {:induction false} EntriesIssuesPointAtEntries(ds: seq<DetailInput>, from: nat)
    ensures forall k :: 0 <= k < |EntriesIssues(ds, from)| ==>
      var p := EntriesIssues(ds, from)[k].path;
      |p| == 3 && p[0] == Key("access_detail") && p[1].Index? && from <= p[1].index < |ds|
    decreases |ds| - from
  {
    if from < |ds| {
      EntriesIssuesPointAtEntries(ds, from + 1);
      var head := DetailIssues(ds[from], from);
      var all := EntriesIssues(ds, from);
      forall k | 0 <= k < |all|
        ensures |all[k].path| == 3 && all[k].path[0] == Key("access_detail")
          && all[k].path[1].Index? && from <= all[k].path[1].index < |ds|
      {
        if k < |head| {
          assert all[k] == head[k];
          assert head[k].path[..2][0] == head[k].path[0] && head[k].path[..2][1] == head[k].path[1];
        } else {
          assert all[k] == EntriesIssues(ds, from + 1)[k - |head|];
        }
      }
    }
  }

  /** A short name is reported first, at `name`, with the bound 3. */
  lemma ShortNameReportedFirst(dto: CreateAccessDto)
    requires |dto.name| < 3
    ensures CreateIssues(dto)[0] == Issue([Key("name")], TooSmall(3))
  {
  }

  /** An empty `access_detail` yields exactly the one length issue when the name is fine. */
  lemma EmptyDetailsSingleIssue(name: string, description: string)
    requires |name| >= 3
    ensures CreateIssues(CreateAccessDto(name, description, [])) == [Issue([Key("access_detail")], TooSmall(1))]
  {
  }
}
