/** The body of `POST /rooms` (backend/src/chat/room.dto.ts) and the checks
    its validation decorators make before the service sees it. */
module RoomDto {
  import opened Values

  /** A validated body. `None` stands for a field that was missing or
      `null`; both reach the service as a falsy value. */
  datatype CreateRoomDto = CreateRoomDto(
    name: string,
    isPrivate: Option<bool>,
    historyEnabled: Option<bool>,
    participantIds: Option<seq<int>>)

  /** `@IsOptional()`: a missing or `null` field skips the field's other checks. */
  predicate Absent(body: map<string, Json>, field: string) {
    field !in body || body[field] == JNull
  }

  /** `@IsString() @IsNotEmpty()` */
  predicate NameValid(body: map<string, Json>) {
    "name" in body && body["name"].JStr? && body["name"].s != []
  }

  /** `@IsBoolean() @IsOptional()` */
  predicate FlagValid(body: map<string, Json>, field: string) {
    Absent(body, field) || body[field].JBool?
  }

  predicate AllNumbers(items: seq<Json>) {
    forall k :: 0 <= k < |items| ==> items[k].JNum?
  }

  /** `@IsArray() @IsNumber({}, { each: true }) @IsOptional()` */
  predicate IdsValid(body: map<string, Json>) {
    Absent(body, "participantIds") || (body["participantIds"].JArr? && AllNumbers(body["participantIds"].items))
  }

  predicate BodyValid(body: map<string, Json>) {
    NameValid(body) && FlagValid(body, "isPrivate") && FlagValid(body, "historyEnabled") && IdsValid(body)
  }

  function Numbers(items: seq<Json>): (r: seq<int>)
    requires AllNumbers(items)
    ensures |r| == |items| && forall k :: 0 <= k < |r| ==> items[k] == JNum(r[k])
  {
    seq(|items|, k requires 0 <= k < |items| => items[k].n)
  }

  function OptionalFlag(body: map<string, Json>, field: string): (r: Option<bool>)
    requires FlagValid(body, field)
    ensures r.None? <==> Absent(body, field)
    ensures r.Some? ==> body[field] == JBool(r.value)
  {
    if Absent(body, field) then None else Some(body[field].b)
  }

  /** The validation pipe: the body is accepted exactly when every decorator
      passes, and the accepted fields are the body's own. */
  function Validate(body: map<string, Json>): (r: Option<CreateRoomDto>)
    ensures r.Some? <==> BodyValid(body)
    ensures r.Some? ==> JStr(r.value.name) == body["name"] && r.value.name != []
    ensures r.Some? ==> (r.value.isPrivate.None? <==> Absent(body, "isPrivate"))
                        && (r.value.historyEnabled.None? <==> Absent(body, "historyEnabled"))
                        && (r.value.participantIds.None? <==> Absent(body, "participantIds"))
    ensures r.Some? && r.value.participantIds.Some? ==>
              body["participantIds"] == JArr(seq(|r.value.participantIds.value|, k requires 0 <= k < |r.value.participantIds.value| => JNum(r.value.participantIds.value[k])))
  {
    if !BodyValid(body) then None
    else
      var ids := if Absent(body, "participantIds") then None else Some(Numbers(body["participantIds"].items));
      Some(CreateRoomDto(body["name"].s, OptionalFlag(body, "isPrivate"), OptionalFlag(body, "historyEnabled"), ids))
  }

  /** A room name the decorators accept. */
  predicate Valid(dto: CreateRoomDto) {
    dto.name != []
  }

  /** The JSON object a client sends for a DTO; absent fields are left out. */
  function ToBody(dto: CreateRoomDto): map<string, Json> {
    var b0 := map["name" := JStr(dto.name)];
    var b1 := if dto.isPrivate.Some? then b0["isPrivate" := JBool(dto.isPrivate.value)] else b0;
    var b2 := if dto.historyEnabled.Some? then b1["historyEnabled" := JBool(dto.historyEnabled.value)] else b1;
    if dto.participantIds.Some? then
      var ids := dto.participantIds.value;
      b2["participantIds" := JArr(seq(|ids|, k requires 0 <= k < |ids| => JNum(ids[k])))]
    else b2
  }

  /** A DTO survives being sent and validated exactly when its name is not
      empty; an empty name is refused. */
  lemma ValidateToBody(dto: CreateRoomDto)
    ensures Validate(ToBody(dto)) == (if Valid(dto) then Some(dto) else None)
  {
    var body := ToBody(dto);
    if Valid(dto) {
      assert BodyValid(body);
      var r := Validate(body).value;
      if dto.participantIds.Some? {
        assert r.participantIds.value == dto.participantIds.value;
      }
    } else {
      assert !NameValid(body);
    }
  }

  /** What the create-room form of the web client posts: a name, both flags
      and the selected ids. */
  lemma ClientFormBody(name: string, isPrivate: bool, historyEnabled: bool, selected: seq<int>)
    requires name != []
    ensures Validate(ToBody(CreateRoomDto(name, Some(isPrivate), Some(historyEnabled), Some(selected))))
            == Some(CreateRoomDto(name, Some(isPrivate), Some(historyEnabled), Some(selected)))
  {
    ValidateToBody(CreateRoomDto(name, Some(isPrivate), Some(historyEnabled), Some(selected)));
  }

  /** A body with a non-numeric participant id is refused, whatever else it holds. */
  lemma NonNumericIdRefused(body: map<string, Json>, k: nat)
    requires "participantIds" in body && body["participantIds"].JArr?
    requires k < |body["participantIds"].items| && !body["participantIds"].items[k].JNum?
    ensures Validate(body) == None
  {
  }
}
