/**
  Identifiers and key conventions of the metadata (tag) store: the global
  object identifier "<keyword>::<id>", the reserved prefix of system keys,
  the identity of one metadata row and the key filter applied when rows
  are listed.
 */
module MetadataKeys {
  import opened Outcomes

  /** Keys that start with this prefix are reserved for system administrators. */
  const SystemAdminPrefix: string := "_"

  /** Keys that start with this prefix are tags imported from a cloud provider. */
  const CloudTagPrefix: string := "ext:"

  /** Separator between the resource keyword and the object id. */
  const IdstrSeparator: string := "::"

  predicate HasPrefix(s: string, prefix: string) {
    |prefix| <= |s| && s[..|prefix|] == prefix
  }

  /** A key reserved for system administrators. */
  predicate IsSystemAdminKey(key: string)
    ensures IsSystemAdminKey(key) <==> |key| > 0 && key[0] == '_'
  {
    HasPrefix(key, SystemAdminPrefix)
  }

  /** The reserved form of a key: the system prefix put in front of it. */
  function GetSysadminKey(key: string): (r: string)
    ensures IsSystemAdminKey(r)
    ensures |r| == |key| + |SystemAdminPrefix|
    ensures r[|SystemAdminPrefix|..] == key
  {
    SystemAdminPrefix + key
  }

  /** The key an administrator is shown for a system key: its prefix dropped. */
  function StripSysadminPrefix(key: string): (r: string)
    requires IsSystemAdminKey(key)
    ensures |r| == |key| - |SystemAdminPrefix|
    ensures GetSysadminKey(r) == key
  {
    key[|SystemAdminPrefix|..]
  }

  /** Prefixing and stripping are inverse on every key. */
  lemma SysadminKeyRoundTrip(key: string)
    ensures StripSysadminPrefix(GetSysadminKey(key)) == key
    ensures forall k {:trigger GetSysadminKey(k)} :: GetSysadminKey(k) == GetSysadminKey(key) ==> k == key
  {
  }

  /** A model object, as far as the metadata store sees it: the keyword of its manager and its id. */
  datatype ModelRef = ModelRef(keyword: string, id: string)

  /** The global identifier of an object, "<keyword>::<id>". */
  function GetObjectIdstr(m: ModelRef): (r: string)
    ensures |r| == |m.keyword| + |IdstrSeparator| + |m.id|
    ensures r[..|m.keyword|] == m.keyword
    ensures r[|m.keyword|..|m.keyword| + 2] == IdstrSeparator
    ensures r[|m.keyword| + 2..] == m.id
    ensures |r| > 0
  {
    m.keyword + IdstrSeparator + m.id
  }

  predicate SeparatorAt(s: string, i: int) {
    0 <= i && i + 1 < |s| && s[i] == ':' && s[i + 1] == ':'
  }

  /** The position of the first "::" in `s`, if any. */
  function FirstSeparator(s: string): (r: Option<nat>)
    ensures r.Some? ==> SeparatorAt(s, r.value)
    ensures r.Some? ==> forall j :: 0 <= j < r.value ==> !SeparatorAt(s, j)
    ensures r.None? ==> forall j :: 0 <= j < |s| ==> !SeparatorAt(s, j)
  {
    if |s| < 2 then None
    else if s[0] == ':' && s[1] == ':' then Some(0)
    else
      assert !SeparatorAt(s, 0);
      assert forall j :: 1 <= j < |s| ==> (SeparatorAt(s, j) <==> SeparatorAt(s[1..], j - 1));
      match FirstSeparator(s[1..])
      case None => None
      case Some(i) => Some(i + 1)
  }

  /** Splits a global identifier at its first "::" back into keyword and id. */
  function ParseIdstr(s: string): (r: Option<ModelRef>)
    ensures r.None? <==> forall j :: 0 <= j < |s| ==> !SeparatorAt(s, j)
  {
    match FirstSeparator(s)
    case None => None
    case Some(i) => Some(ModelRef(s[..i], s[i + 2..]))
  }

  /** Every identifier that parses was built from the object it parses to. */
  lemma ParseIdstrSound(s: string)
    requires ParseIdstr(s).Some?
    ensures GetObjectIdstr(ParseIdstr(s).value) == s
    ensures forall j :: 0 <= j < |ParseIdstr(s).value.keyword| ==> !SeparatorAt(ParseIdstr(s).value.keyword, j)
  {
    var i := FirstSeparator(s).value;
    assert forall j :: 0 <= j < i ==> (SeparatorAt(s[..i], j) ==> SeparatorAt(s, j));
    assert s == s[..i] + IdstrSeparator + s[i + 2..];
  }

  /** For a keyword without ':' (every resource keyword), the identifier parses back to the object. */
  lemma ParseIdstrComplete(m: ModelRef)
    requires ':' !in m.keyword
    ensures ParseIdstr(GetObjectIdstr(m)) == Some(m)
  {
    var s := GetObjectIdstr(m);
    var n := |m.keyword|;
    assert SeparatorAt(s, n);
    assert forall j :: 0 <= j < n ==> s[j] == m.keyword[j];
    assert FirstSeparator(s) == Some(n);
  }

  /** One row of the metadata table. */
  datatype MetadataRow = MetadataRow(id: string, key: string, value: string) {

    /** The row's object id: "<idstr>-<key>". */
    function GetId(): (r: string)
      ensures |r| == |id| + 1 + |key|
      ensures r[..|id|] == id && r[|id|] == '-' && r[|id| + 1..] == key
    {
      id + "-" + key
    }

    /** The row's name, which is the same text as its id. */
    function GetName(): (r: string)
      ensures r == GetId()
    {
      id + "-" + key
    }
  }

  /** Rows of one object are told apart by their ids. */
  lemma {:induction false} GetIdInjectiveOnKey(a: MetadataRow, b: MetadataRow)
    requires a.id == b.id && a.GetId() == b.GetId()
    ensures a.key == b.key
  {
    var n := |a.id| + 1;
    calc {
      a.key;
      a.GetId()[n..];
      b.GetId()[n..];
      b.key;
    }
  }

  /** Across objects the row id is ambiguous: two different rows can share one. */
  lemma GetIdAmbiguousAcrossObjects()
    ensures MetadataRow("disk::a-b", "c", "").GetId() == MetadataRow("disk::a", "b-c", "").GetId()
  {
  }

  /**
    Whether a row with this key is listed: system keys only when asked for
    with `withSys`, cloud tags only when asked for with `withCloud`.
   */
  predicate KeyListed(key: string, withSys: bool, withCloud: bool)
    ensures KeyListed(key, withSys, withCloud) ==> withSys || !IsSystemAdminKey(key)
  {
    && (withSys || !HasPrefix(key, SystemAdminPrefix))
    && (withCloud || !HasPrefix(key, CloudTagPrefix))
  }

  /** The rows a listing returns: those whose key is listed, in their order. */
  function ListedRows(rows: seq<MetadataRow>, withSys: bool, withCloud: bool): (r: seq<MetadataRow>)
    ensures |r| <= |rows|
    ensures forall x :: x in r <==> x in rows && KeyListed(x.key, withSys, withCloud)
  {
    if rows == [] then []
    else if KeyListed(rows[0].key, withSys, withCloud) then [rows[0]] + ListedRows(rows[1..], withSys, withCloud)
    else ListedRows(rows[1..], withSys, withCloud)
  }

  /** Reserved keys are hidden from a listing that does not ask for them, whatever the key. */
  lemma SysadminKeysNeverListedByDefault(key: string, withCloud: bool)
    ensures !KeyListed(GetSysadminKey(key), false, withCloud)
  {
  }

  /** Asking for both system keys and cloud tags lists every row unchanged. */
  lemma {:induction false} ListedRowsAllFlags(rows: seq<MetadataRow>)
    ensures ListedRows(rows, true, true) == rows
  {
    if rows != [] {
      ListedRowsAllFlags(rows[1..]);
      assert rows == [rows[0]] + rows[1..];
    }
  }
}
