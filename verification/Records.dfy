/** The sequenced commit record and its JSON form. */
module Records {
  import opened Bits
  import opened Digests

  datatype Json =
    | Null
    | Bool(b: bool)
    | UInt(n: U64)
    | OtherNumber(text: string)
    | Str(s: string)
    | Arr(items: seq<Json>)
    | Obj(fields: map<string, Json>)
  {
    function AsObject(): Option<map<string, Json>> {
      if Obj? then Some(fields) else None
    }

    function AsU64(): Option<U64> {
      if UInt? then Some(n) else None
    }

    function AsStr(): Option<string> {
      if Str? then Some(s) else None
    }
  }

  function Get(fields: map<string, Json>, key: string): Option<Json> {
    if key in fields then Some(fields[key]) else None
  }

  /** `get(key).and_then(as_u64)` */
  function GetU64(fields: map<string, Json>, key: string): Option<U64> {
    if key in fields then fields[key].AsU64() else None
  }

  /** `get(key).and_then(as_str)` */
  function GetStr(fields: map<string, Json>, key: string): Option<string> {
    if key in fields then fields[key].AsStr() else None
  }

  /** `get(key).and_then(as_str).and_then(parse)` */
  function GetParsed<T>(fields: map<string, Json>, key: string, parse: string -> Option<T>): Option<T> {
    match GetStr(fields, key)
    case None => None
    case Some(s) => parse(s)
  }

  datatype Timestamp = Timestamp(secs: int, nanos: nat)

  /** The text forms of the value types that belong to other crates. */
  datatype Formats = Formats(
    printTime: Timestamp -> string, parseTime: string -> Option<Timestamp>,
    printHash: Hash -> string, parseHash: string -> Option<Hash>)
  {
    /** What those crates are relied on for: parsing undoes printing. */
    ghost predicate RoundTrip() {
      && (forall t :: parseTime(printTime(t)) == Some(t))
      && (forall d :: parseHash(printHash(d)) == Some(d))
    }
  }

  datatype CommitRecord = CommitRecord(
    seqNo: U64, loggedAt: Timestamp, subject: string, commitment: Hash, saltRef: Option<U64>)

  function SaltJson(salt: Option<U64>): Json {
    match salt
    case None => Null
    case Some(n) => UInt(n)
  }

  function ToJson(f: Formats, r: CommitRecord): Json {
    Obj(map[
          "seq" := UInt(r.seqNo),
          "logged_at" := Str(f.printTime(r.loggedAt)),
          "subject" := Str(r.subject),
          "commitment" := Str(f.printHash(r.commitment)),
          "salt_ref" := SaltJson(r.saltRef)])
  }

  /** The salt reference may be absent or null; any other value must be an unsigned integer. */
  function SaltFromJson(v: Option<Json>): Result<Option<U64>, string> {
    match v
    case None => Ok(None)
    case Some(Null) => Ok(None)
    case Some(UInt(n)) => Ok(Some(n))
    case Some(OtherNumber(_)) => Err("`salt_ref` must be a u64")
    case Some(_) => Err("`salt_ref` must be an unsigned integer")
  }

  function FromJson(f: Formats, v: Json): Result<CommitRecord, string> {
    var obj := v.AsObject();
    if obj.None? then Err("commit record must be an object") else
    var seqNo := GetU64(obj.value, "seq");
    if seqNo.None? then Err("missing `seq`") else
    var loggedAt := GetParsed(obj.value, "logged_at", f.parseTime);
    if loggedAt.None? then Err("missing/invalid `logged_at`") else
    var subject := GetStr(obj.value, "subject");
    if subject.None? then Err("missing `subject`") else
    var commitment := GetParsed(obj.value, "commitment", f.parseHash);
    if commitment.None? then Err("missing/invalid `commitment` (64-char hex)") else
    match SaltFromJson(Get(obj.value, "salt_ref"))
    case Err(e) => Err(e)
    case Ok(saltRef) => Ok(CommitRecord(seqNo.value, loggedAt.value, subject.value, commitment.value, saltRef))
  }

  /** The salt reference that a field may mean: none if it is absent or null. */
  predicate MeansSalt(v: Option<Json>, salt: Option<U64>) {
    match salt
    case None => v == None || v == Some(Null)
    case Some(n) => v == Some(UInt(n))
  }

  /** A record is read exactly from an object all of whose fields can be read. */
  lemma FromJsonExactly(f: Formats, v: Json, r: CommitRecord)
    ensures FromJson(f, v) == Ok(r)
            <==> && v.Obj? && GetU64(v.fields, "seq") == Some(r.seqNo)
                 && GetParsed(v.fields, "logged_at", f.parseTime) == Some(r.loggedAt)
                 && GetStr(v.fields, "subject") == Some(r.subject)
                 && GetParsed(v.fields, "commitment", f.parseHash) == Some(r.commitment)
                 && MeansSalt(Get(v.fields, "salt_ref"), r.saltRef)
  {
  }

  /** Reading a record back gives the record. */
  lemma RecordRoundTrip(f: Formats, r: CommitRecord)
    requires f.RoundTrip()
    ensures FromJson(f, ToJson(f, r)) == Ok(r)
  {
  }

  /** The commitments of a record sequence: all that enters the tree. */
  function Commitments(records: seq<CommitRecord>): (D: seq<Hash>)
    ensures |D| == |records|
  {
    seq(|records|, i requires 0 <= i < |records| => records[i].commitment)
  }

  /** Every record carries its own position. */
  predicate InSequence(records: seq<CommitRecord>) {
    forall i | 0 <= i < |records| :: records[i].seqNo == i
  }
}
