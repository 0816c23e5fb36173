/** UE location lookup over what was parsed from the AMF log: the UE table
    entries and the gNB information are Python dictionaries of strings,
    modelled as maps, so that `dict.get` with and without a default keeps
    its meaning. */
module UeLocation {
  import opened Results

  /** A dictionary of strings as the log parsers build it. */
  type Record = map<string, string>

  /** `d.get(k)`. */
  function Get(d: Record, k: string): (r: Option<string>)
    ensures r.Some? <==> k in d
    ensures r.Some? ==> r.value == d[k]
  {
    if k in d then Some(d[k]) else None
  }

  /** `d.get(k, default)`. */
  function GetOr(d: Record, k: string, default: string): (r: string)
    ensures k in d ==> r == d[k]
    ensures k !in d ==> r == default
  {
    if k in d then d[k] else default
  }

  const NOT_AVAILABLE: string := "N/A"
  const DEFAULT_CELL_ID: string := "0000e000"
  const UNKNOWN_STATUS: string := "Unknown"

  /** The location record: the cell and what the AMF knows of the gNB. */
  datatype Location = Location(cellId: string, gnbName: string, gnbId: string, tac: string, plmn: string)

  /** `calculate_approximate_location`: the gNB name is 'name', else
      'gnb_name', else 'N/A'; the gNB id is 'global_id', else 'gnb_id',
      else 'N/A'; the TAC and the PLMN are 'N/A' when absent. */
  function ApproximateLocation(cellId: string, gnbInfo: Record): (r: Location)
    ensures r.cellId == cellId
    ensures "name" in gnbInfo ==> r.gnbName == gnbInfo["name"]
    ensures "name" !in gnbInfo && "gnb_name" in gnbInfo ==> r.gnbName == gnbInfo["gnb_name"]
    ensures "name" !in gnbInfo && "gnb_name" !in gnbInfo ==> r.gnbName == NOT_AVAILABLE
    ensures "global_id" in gnbInfo ==> r.gnbId == gnbInfo["global_id"]
    ensures "global_id" !in gnbInfo && "gnb_id" in gnbInfo ==> r.gnbId == gnbInfo["gnb_id"]
    ensures "global_id" !in gnbInfo && "gnb_id" !in gnbInfo ==> r.gnbId == NOT_AVAILABLE
    ensures r.tac == (if "tac" in gnbInfo then gnbInfo["tac"] else NOT_AVAILABLE)
    ensures r.plmn == (if "plmn" in gnbInfo then gnbInfo["plmn"] else NOT_AVAILABLE)
  {
    Location(cellId,
             GetOr(gnbInfo, "name", GetOr(gnbInfo, "gnb_name", NOT_AVAILABLE)),
             GetOr(gnbInfo, "global_id", GetOr(gnbInfo, "gnb_id", NOT_AVAILABLE)),
             GetOr(gnbInfo, "tac", NOT_AVAILABLE),
             GetOr(gnbInfo, "plmn", NOT_AVAILABLE))
  }

  datatype UeIdentity = UeIdentity(
    imsi: string,
    guti: Option<string>,
    ranUeNgapId: Option<string>,
    amfUeNgapId: Option<string>,
    imei: Option<string>)

  datatype NetworkLocation = NetworkLocation(
    mcc: Option<string>,
    mnc: Option<string>,
    cellId: string,
    tac: string,
    trackingArea: string)

  datatype GnbSummary = GnbSummary(gnbId: Option<string>, gnbName: Option<string>, status: string)

  /** The location information compiled for one UE; `imei` is `None`
      until an IMEI lookup adds it. */
  datatype LocationInfo = LocationInfo(
    ueIdentity: UeIdentity,
    networkLocation: NetworkLocation,
    gnbInfo: GnbSummary,
    geographicLocation: Location,
    state: Option<string>,
    lastUpdated: Option<string>)

  /** The record built for the matching entry: a missing cell id is
      '0000e000'; the gNB id and name fall back as in the approximate
      location but to `None`; a missing status is 'Unknown'. */
  function Compiled(imsi: string, ue: Record, gnbInfo: Record): (r: LocationInfo)
    ensures r.ueIdentity.imsi == imsi && r.ueIdentity.imei == None
    ensures r.networkLocation.cellId == if "cell_id" in ue then ue["cell_id"] else DEFAULT_CELL_ID
    ensures r.geographicLocation.cellId == r.networkLocation.cellId
    ensures r.gnbInfo.gnbId.Some? <==> "global_id" in gnbInfo || "gnb_id" in gnbInfo
    ensures r.gnbInfo.gnbName.Some? <==> "name" in gnbInfo || "gnb_name" in gnbInfo
  {
    var cellId := GetOr(ue, "cell_id", DEFAULT_CELL_ID);
    LocationInfo(
      UeIdentity(imsi, Get(ue, "guti"), Get(ue, "ran_ue_ngap_id"), Get(ue, "amf_ue_ngap_id"), None),
      NetworkLocation(Get(ue, "mcc"), Get(ue, "mnc"), cellId,
                      GetOr(gnbInfo, "tac", NOT_AVAILABLE), GetOr(gnbInfo, "tac", NOT_AVAILABLE)),
      GnbSummary(if "global_id" in gnbInfo then Some(gnbInfo["global_id"]) else Get(gnbInfo, "gnb_id"),
                 if "name" in gnbInfo then Some(gnbInfo["name"]) else Get(gnbInfo, "gnb_name"),
                 GetOr(gnbInfo, "status", UNKNOWN_STATUS)),
      ApproximateLocation(cellId, gnbInfo),
      Get(ue, "gmm_state"),
      Get(ue, "timestamp"))
  }

  /** Every entry has an IMSI, as every entry the UE-table parser builds
      does; the lookup subscripts it. */
  predicate HaveImsi(entries: seq<Record>)
  {
    forall i :: 0 <= i < |entries| ==> "imsi" in entries[i]
  }

  /** The position of the first entry whose IMSI is imsi. */
  function FirstMatch(entries: seq<Record>, imsi: string): (r: Option<nat>)
    requires HaveImsi(entries)
    ensures r.None? <==> forall i :: 0 <= i < |entries| ==> entries[i]["imsi"] != imsi
    ensures r.Some? ==> r.value < |entries| && entries[r.value]["imsi"] == imsi
    ensures r.Some? ==> forall i :: 0 <= i < r.value ==> entries[i]["imsi"] != imsi
  {
    if entries == [] then None
    else if entries[0]["imsi"] == imsi then Some(0)
    else
      match FirstMatch(entries[1..], imsi)
      case None => None
      case Some(k) => Some(k + 1)
  }

  /** What `get_ue_location_by_imsi` returns: nothing without a log or
      without a matching entry, else the record of the first match. */
  function LocationByImsi(imsi: string, logs: string, entries: seq<Record>, gnbInfo: Record): Option<LocationInfo>
    requires HaveImsi(entries)
  {
    if logs == "" then None
    else match FirstMatch(entries, imsi)
      case None => None
      case Some(i) => Some(Compiled(imsi, entries[i], gnbInfo))
  }

  /** `get_ue_location_by_imsi` on the fetched log and what was parsed
      from it: the scan stops at the first entry with the IMSI. */
  method GetUeLocationByImsi(imsi: string, logs: string, entries: seq<Record>, gnbInfo: Record)
    returns (r: Option<LocationInfo>)
    requires HaveImsi(entries)
    ensures r == LocationByImsi(imsi, logs, entries, gnbInfo)
    ensures r.Some? <==> logs != "" && exists i :: 0 <= i < |entries| && entries[i]["imsi"] == imsi
    ensures r.Some? ==> r.value.ueIdentity.imsi == imsi && r.value.ueIdentity.imei == None
  {
    if logs == "" {
      return None;
    }
    var ueInfo: Option<Record> := None;
    var i := 0;
    while i < |entries|
      invariant 0 <= i <= |entries|
      invariant forall j :: 0 <= j < i ==> entries[j]["imsi"] != imsi
      invariant ueInfo.None?
    {
      if entries[i]["imsi"] == imsi {
        ueInfo := Some(entries[i]);
        break;
      }
      i := i + 1;
    }
    if ueInfo.None? {
      return None;
    }
    r := Some(Compiled(imsi, ueInfo.value, gnbInfo));
  }

  /** An entry's IMSI is used when it is non-empty and not '-'. */
  predicate UsableImsi(entry: Record)
  {
    "imsi" in entry && entry["imsi"] != "" && entry["imsi"] != "-"
  }

  /** The usable IMSIs of the entries, in entry order. */
  function UsableImsis(entries: seq<Record>): (r: seq<string>)
    ensures |r| <= |entries|
  {
    if entries == [] then []
    else
      var last := entries[|entries| - 1];
      UsableImsis(entries[..|entries| - 1]) + (if UsableImsi(last) then [last["imsi"]] else [])
  }

  /** Every usable IMSI belongs to some entry. */
  lemma {:induction false} UsableImsisListed(entries: seq<Record>)
    ensures forall x :: x in UsableImsis(entries) ==> exists i :: 0 <= i < |entries| && "imsi" in entries[i] && entries[i]["imsi"] == x
  {
    if entries != [] {
      var p := entries[..|entries| - 1];
      UsableImsisListed(p);
      forall x | x in UsableImsis(entries)
        ensures exists i :: 0 <= i < |entries| && "imsi" in entries[i] && entries[i]["imsi"] == x
      {
        if x in UsableImsis(p) {
          var i :| 0 <= i < |p| && "imsi" in p[i] && p[i]["imsi"] == x;
          assert entries[i] == p[i];
        }
      }
    }
  }

  /** Every IMSI listed is that of some entry. */
  predicate AllFound(imsis: seq<string>, entries: seq<Record>)
    requires HaveImsi(entries)
  {
    forall x :: x in imsis ==> exists i :: 0 <= i < |entries| && entries[i]["imsi"] == x
  }

  /** The locations of the given IMSIs, each found in the entries. */
  function LocationsOf(imsis: seq<string>, logs: string, entries: seq<Record>, gnbInfo: Record): (r: seq<LocationInfo>)
    requires HaveImsi(entries) && logs != ""
    requires AllFound(imsis, entries)
    ensures |r| == |imsis|
  {
    seq(|imsis|, j requires 0 <= j < |imsis| =>
      assert imsis[j] in imsis;
      assert FirstMatch(entries, imsis[j]).Some?;
      LocationByImsi(imsis[j], logs, entries, gnbInfo).value)
  }

  /** One more IMSI, found at position i, adds its record at the end. */
  lemma LocationsOfSnoc(imsis: seq<string>, x: string, i: nat, logs: string, entries: seq<Record>, gnbInfo: Record)
    requires HaveImsi(entries) && logs != "" && AllFound(imsis, entries)
    requires i < |entries| && entries[i]["imsi"] == x
    ensures AllFound(imsis + [x], entries)
    ensures LocationByImsi(x, logs, entries, gnbInfo).Some?
    ensures LocationsOf(imsis + [x], logs, entries, gnbInfo)
      == LocationsOf(imsis, logs, entries, gnbInfo) + [LocationByImsi(x, logs, entries, gnbInfo).value]
  {
    assert FirstMatch(entries, x).Some?;
  }

  /** What `get_all_ue_locations` returns: nothing without a log, else
      one record per entry with a usable IMSI, looked up by that IMSI. */
  function AllLocations(logs: string, entries: seq<Record>, gnbInfo: Record): (r: seq<LocationInfo>)
    requires HaveImsi(entries)
  {
    if logs == "" then []
    else
      UsableImsisListed(entries);
      assert AllFound(UsableImsis(entries), entries);
      LocationsOf(UsableImsis(entries), logs, entries, gnbInfo)
  }

  /** `get_all_ue_locations`: entries without a usable IMSI are skipped,
      every other one is looked up by its IMSI and its record appended. */
  method GetAllUeLocations(logs: string, entries: seq<Record>, gnbInfo: Record)
    returns (all: seq<LocationInfo>)
    requires HaveImsi(entries)
    ensures all == AllLocations(logs, entries, gnbInfo)
  {
    if logs == "" {
      return [];
    }
    all := [];
    for i := 0 to |entries|
      invariant AllFound(UsableImsis(entries[..i]), entries)
      invariant all == LocationsOf(UsableImsis(entries[..i]), logs, entries, gnbInfo)
    {
      ghost var before := UsableImsis(entries[..i]);
      assert entries[..i + 1][..i] == entries[..i];
      var imsi := Get(entries[i], "imsi");
      if imsi.Some? && imsi.value != "" && imsi.value != "-" {
        var locationInfo := GetUeLocationByImsi(imsi.value, logs, entries, gnbInfo);
        assert locationInfo.Some?;
        assert UsableImsis(entries[..i + 1]) == before + [imsi.value];
        LocationsOfSnoc(before, imsi.value, i, logs, entries, gnbInfo);
        all := all + [locationInfo.value];
      } else {
        assert UsableImsis(entries[..i + 1]) == before;
      }
    }
    assert entries[..|entries|] == entries;
  }

  /** Each IMSI is found, and its record is the one compiled from the
      first entry with that IMSI. */
  lemma LocationsOfFirstMatches(imsis: seq<string>, logs: string, entries: seq<Record>, gnbInfo: Record)
    requires HaveImsi(entries) && logs != ""
    requires AllFound(imsis, entries)
    ensures forall j :: 0 <= j < |imsis| ==>
      FirstMatch(entries, imsis[j]).Some? &&
      LocationsOf(imsis, logs, entries, gnbInfo)[j] == Compiled(imsis[j], entries[FirstMatch(entries, imsis[j]).value], gnbInfo)
  {
    forall j | 0 <= j < |imsis|
      ensures FirstMatch(entries, imsis[j]).Some?
    {
      assert imsis[j] in imsis;
    }
  }

  /** With a log, every entry with a usable IMSI yields exactly one record,
      in entry order, carrying that IMSI; an entry whose IMSI repeats an
      earlier one gets the earlier entry's record. */
  lemma AllLocationsPerEntry(logs: string, entries: seq<Record>, gnbInfo: Record)
    requires HaveImsi(entries) && logs != ""
    ensures |AllLocations(logs, entries, gnbInfo)| == |UsableImsis(entries)|
    ensures forall j :: 0 <= j < |UsableImsis(entries)| ==>
      AllLocations(logs, entries, gnbInfo)[j].ueIdentity.imsi == UsableImsis(entries)[j]
    ensures forall j :: 0 <= j < |UsableImsis(entries)| ==>
      FirstMatch(entries, UsableImsis(entries)[j]).Some? &&
      AllLocations(logs, entries, gnbInfo)[j] ==
        Compiled(UsableImsis(entries)[j], entries[FirstMatch(entries, UsableImsis(entries)[j]).value], gnbInfo)
  {
    UsableImsisListed(entries);
    LocationsOfFirstMatches(UsableImsis(entries), logs, entries, gnbInfo);
  }

  /** `get_ue_location_by_imei`: the IMSI the log associates with the IMEI
      (found by pattern search, here a parameter) is looked up, and a
      record found gets the IMEI added to its identity. */
  method GetUeLocationByImei(imei: string, logs: string, mappedImsi: Option<string>,
                             entries: seq<Record>, gnbInfo: Record)
    returns (r: Option<LocationInfo>)
    requires HaveImsi(entries)
    ensures logs == "" || mappedImsi.None? ==> r == None
    ensures logs != "" && mappedImsi.Some? ==>
      (r.Some? <==> LocationByImsi(mappedImsi.value, logs, entries, gnbInfo).Some?)
    ensures r.Some? ==> (mappedImsi.Some? &&
      var base := LocationByImsi(mappedImsi.value, logs, entries, gnbInfo).value;
      r.value == base.(ueIdentity := base.ueIdentity.(imei := Some(imei))))
  {
    if logs == "" || mappedImsi.None? {
      return None;
    }
    var locationInfo := GetUeLocationByImsi(mappedImsi.value, logs, entries, gnbInfo);
    if locationInfo.Some? {
      var info := locationInfo.value;
      r := Some(info.(ueIdentity := info.ueIdentity.(imei := Some(imei))));
    } else {
      r := None;
    }
  }
}
