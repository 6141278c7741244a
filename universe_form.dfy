/** The universe form's conversions between a universe's cluster description and the form's
    data: finding a cluster by type, turning a cluster's gflag maps into form rows and back,
    and building the user intent the form submits (tags and passwords filtered). A JavaScript
    object map is modelled as its entries in key order, an absent (null or undefined) value as
    `None`, and a string's truthiness as being non-empty. */
module UniverseForm {
  import opened Wrappers

  datatype ClusterType = PRIMARY | ASYNC

  /** One entry of an object map (key and value), or one `{name, value}` item of a list. */
  datatype Entry = Entry(name: string, value: string)

  /** A gflag row of the form: its name, and its value for masters and for tservers, each
      present or not. */
  datatype Gflag = Gflag(Name: string, MASTER: Option<string>, TSERVER: Option<string>)

  /** The user intent of a cluster: tags and gflags are object maps when they come from a
      universe and `{name, value}` lists when the form submits them; both are entry lists here. */
  datatype UserIntent = UserIntent(
    universeName: string,
    instanceType: string,
    instanceTags: seq<Entry>,
    enableYSQL: bool,
    enableYSQLAuth: bool,
    enableYCQL: bool,
    enableYCQLAuth: bool,
    ysqlPassword: Option<string>,
    ycqlPassword: Option<string>,
    masterGFlags: seq<Entry>,
    tserverGFlags: seq<Entry>)

  datatype Cluster = Cluster(clusterType: ClusterType, userIntent: UserIntent)

  datatype EncryptionAtRestConfig = EncryptionAtRestConfig(
    encryptionAtRestEnabled: Option<bool>,
    kmsConfigUUID: Option<string>)

  datatype UniverseDetails = UniverseDetails(
    clusters: Option<seq<Cluster>>,
    encryptionAtRestConfig: EncryptionAtRestConfig)

  datatype CloudConfig = CloudConfig(universeName: string)

  datatype InstanceConfig = InstanceConfig(
    instanceType: Option<string>,
    enableYSQL: bool,
    enableYSQLAuth: bool,
    ysqlPassword: Option<string>,
    enableYCQL: bool,
    enableYCQLAuth: bool,
    ycqlPassword: Option<string>,
    enableEncryptionAtRest: bool,
    kmsConfig: Option<string>)

  datatype FormData = FormData(
    cloudConfig: CloudConfig,
    instanceConfig: InstanceConfig,
    instanceTags: Option<seq<Entry>>,
    gFlags: Option<seq<Gflag>>)

  // ---------------------------------------------------------------------------------------
  // getClusterByType

  /** The first cluster of the given type. */
  function FindCluster(clusters: seq<Cluster>, clusterType: ClusterType): (r: Option<Cluster>)
    ensures r.None? <==> forall i :: 0 <= i < |clusters| ==> clusters[i].clusterType != clusterType
    ensures r.Some? ==> r.value.clusterType == clusterType
    ensures r.Some? ==>
      exists i :: 0 <= i < |clusters| && clusters[i] == r.value
                  && (forall j :: 0 <= j < i ==> clusters[j].clusterType != clusterType)
  {
    if |clusters| == 0 then None
    else if clusters[0].clusterType == clusterType then Some(clusters[0])
    else
      var r := FindCluster(clusters[1..], clusterType);
      assert r.Some? ==>
        exists i :: 0 <= i < |clusters| - 1 && clusters[1..][i] == r.value
                    && (forall j :: 0 <= j < i ==> clusters[1..][j].clusterType != clusterType);
      r
  }

  /** The universe's first cluster of the given type; none when there is no universe data or it
      has no clusters at all. */
  function GetClusterByType(universeData: Option<UniverseDetails>, clusterType: ClusterType): (r: Option<Cluster>)
    ensures universeData.None? || universeData.value.clusters.None? ==> r.None?
    ensures r.Some? ==> r.value.clusterType == clusterType && r.value in universeData.value.clusters.value
  {
    match universeData
    case None => None
    case Some(details) =>
      match details.clusters
      case None => None
      case Some(clusters) => FindCluster(clusters, clusterType)
  }

  // ---------------------------------------------------------------------------------------
  // transformMasterTserverToFlags / transformFlagsToMasterTserver

  /** One form row per master flag, then one per tserver flag, in key order. */
  function TransformMasterTserverToFlags(masterGFlags: seq<Entry>, tserverGFlags: seq<Entry>): (r: seq<Gflag>)
    ensures |r| == |masterGFlags| + |tserverGFlags|
    ensures forall i :: 0 <= i < |masterGFlags| ==>
      r[i] == Gflag(masterGFlags[i].name, Some(masterGFlags[i].value), None)
    ensures forall i :: 0 <= i < |tserverGFlags| ==>
      r[|masterGFlags| + i] == Gflag(tserverGFlags[i].name, None, Some(tserverGFlags[i].value))
  {
    seq(|masterGFlags|, i requires 0 <= i < |masterGFlags| =>
        Gflag(masterGFlags[i].name, Some(masterGFlags[i].value), None))
    + seq(|tserverGFlags|, i requires 0 <= i < |tserverGFlags| =>
        Gflag(tserverGFlags[i].name, None, Some(tserverGFlags[i].value)))
  }

  /** The `{name, value}` list of the rows that have a master value, in row order. */
  function MasterEntries(flags: seq<Gflag>): seq<Entry>
  {
    if |flags| == 0 then []
    else
      var last := flags[|flags| - 1];
      MasterEntries(flags[..|flags| - 1]) + (if last.MASTER.Some? then [Entry(last.Name, last.MASTER.value)] else [])
  }

  /** The `{name, value}` list of the rows that have a tserver value, in row order. */
  function TserverEntries(flags: seq<Gflag>): seq<Entry>
  {
    if |flags| == 0 then []
    else
      var last := flags[|flags| - 1];
      TserverEntries(flags[..|flags| - 1]) + (if last.TSERVER.Some? then [Entry(last.Name, last.TSERVER.value)] else [])
  }

  /** Splits the form's rows into master and tserver lists; no rows at all gives two empty lists. */
  method TransformFlagsToMasterTserver(flagsArray: Option<seq<Gflag>>)
    returns (masterGFlags: seq<Entry>, tserverGFlags: seq<Entry>)
    ensures flagsArray.None? ==> masterGFlags == [] && tserverGFlags == []
    ensures flagsArray.Some? ==>
      masterGFlags == MasterEntries(flagsArray.value) && tserverGFlags == TserverEntries(flagsArray.value)
  {
    var flags := if flagsArray.Some? then flagsArray.value else [];
    masterGFlags, tserverGFlags := [], [];
    for i := 0 to |flags|
      invariant masterGFlags == MasterEntries(flags[..i])
      invariant tserverGFlags == TserverEntries(flags[..i])
    {
      var flag := flags[i];
      if flag.MASTER.Some? {
        masterGFlags := masterGFlags + [Entry(flag.Name, flag.MASTER.value)];
      }
      if flag.TSERVER.Some? {
        tserverGFlags := tserverGFlags + [Entry(flag.Name, flag.TSERVER.value)];
      }
      assert flags[..i + 1][..i] == flags[..i];
    }
    assert flags[..|flags|] == flags;
  }

  /** Splitting keeps row order: the rows of `a` come before the rows of `b`. */
  lemma {:induction false} EntriesOfConcat(a: seq<Gflag>, b: seq<Gflag>)
    ensures MasterEntries(a + b) == MasterEntries(a) + MasterEntries(b)
    ensures TserverEntries(a + b) == TserverEntries(a) + TserverEntries(b)
  {
    if |b| == 0 {
      assert a + b == a;
    } else {
      var n := |b| - 1;
      assert (a + b)[..|a + b| - 1] == a + b[..n];
      assert (a + b)[|a + b| - 1] == b[n];
      EntriesOfConcat(a, b[..n]);
    }
  }

  /** A row with both a master and a tserver value is in both lists. */
  lemma {:induction false} FlagWithBothInBoth(flags: seq<Gflag>, i: nat)
    requires i < |flags| && flags[i].MASTER.Some? && flags[i].TSERVER.Some?
    ensures Entry(flags[i].Name, flags[i].MASTER.value) in MasterEntries(flags)
    ensures Entry(flags[i].Name, flags[i].TSERVER.value) in TserverEntries(flags)
  {
    if i < |flags| - 1 {
      FlagWithBothInBoth(flags[..|flags| - 1], i);
    }
  }

  lemma {:induction false} MasterRowsRoundTrip(m: seq<Entry>)
    ensures MasterEntries(seq(|m|, i requires 0 <= i < |m| => Gflag(m[i].name, Some(m[i].value), None))) == m
    ensures TserverEntries(seq(|m|, i requires 0 <= i < |m| => Gflag(m[i].name, Some(m[i].value), None))) == []
  {
    if |m| > 0 {
      var n := |m| - 1;
      var rows := seq(|m|, i requires 0 <= i < |m| => Gflag(m[i].name, Some(m[i].value), None));
      assert rows[..n] == seq(n, i requires 0 <= i < n => Gflag(m[..n][i].name, Some(m[..n][i].value), None));
      MasterRowsRoundTrip(m[..n]);
      assert m[..n] + [m[n]] == m;
    }
  }

  lemma {:induction false} TserverRowsRoundTrip(t: seq<Entry>)
    ensures MasterEntries(seq(|t|, i requires 0 <= i < |t| => Gflag(t[i].name, None, Some(t[i].value)))) == []
    ensures TserverEntries(seq(|t|, i requires 0 <= i < |t| => Gflag(t[i].name, None, Some(t[i].value)))) == t
  {
    if |t| > 0 {
      var n := |t| - 1;
      var rows := seq(|t|, i requires 0 <= i < |t| => Gflag(t[i].name, None, Some(t[i].value)));
      assert rows[..n] == seq(n, i requires 0 <= i < n => Gflag(t[..n][i].name, None, Some(t[..n][i].value)));
      TserverRowsRoundTrip(t[..n]);
      assert t[..n] + [t[n]] == t;
    }
  }

  /** Turning a cluster's master and tserver flags into form rows and splitting the rows again
      gives back both flag lists, entry for entry and in order. */
  lemma FlagsRoundTrip(masterGFlags: seq<Entry>, tserverGFlags: seq<Entry>)
    ensures MasterEntries(TransformMasterTserverToFlags(masterGFlags, tserverGFlags)) == masterGFlags
    ensures TserverEntries(TransformMasterTserverToFlags(masterGFlags, tserverGFlags)) == tserverGFlags
  {
    var m := seq(|masterGFlags|, i requires 0 <= i < |masterGFlags| =>
        Gflag(masterGFlags[i].name, Some(masterGFlags[i].value), None));
    var t := seq(|tserverGFlags|, i requires 0 <= i < |tserverGFlags| =>
        Gflag(tserverGFlags[i].name, None, Some(tserverGFlags[i].value)));
    assert TransformMasterTserverToFlags(masterGFlags, tserverGFlags) == m + t;
    EntriesOfConcat(m, t);
    MasterRowsRoundTrip(masterGFlags);
    TserverRowsRoundTrip(tserverGFlags);
  }

  // ---------------------------------------------------------------------------------------
  // getUserIntent

  /** A string is truthy when it is not empty; an absent one is falsy. */
  predicate Truthy(s: Option<string>)
  {
    s.Some? && s.value != ""
  }

  /** The tags whose name and value are both non-empty, in order. */
  function FilterTags(tags: seq<Entry>): (r: seq<Entry>)
    ensures |r| <= |tags|
    ensures forall e :: e in r <==> e in tags && e.name != "" && e.value != ""
  {
    if |tags| == 0 then []
    else if tags[0].name != "" && tags[0].value != "" then [tags[0]] + FilterTags(tags[1..])
    else FilterTags(tags[1..])
  }

  /** Filtering twice filters no more than once. */
  lemma {:induction false} FilterTagsIdempotent(tags: seq<Entry>)
    ensures FilterTags(FilterTags(tags)) == FilterTags(tags)
  {
    if |tags| > 0 {
      FilterTagsIdempotent(tags[1..]);
    }
  }

  /** Tags that are all filled in are kept, all of them and in order. */
  lemma {:induction false} FilterTagsKeepsFilledTags(tags: seq<Entry>)
    requires forall i :: 0 <= i < |tags| ==> tags[i].name != "" && tags[i].value != ""
    ensures FilterTags(tags) == tags
  {
    if |tags| > 0 {
      FilterTagsKeepsFilledTags(tags[1..]);
    }
  }

  /** The intent the form submits. */
  ghost function IntentOf(formData: FormData): UserIntent
  {
    var flags := if formData.gFlags.Some? then formData.gFlags.value else [];
    var ic := formData.instanceConfig;
    UserIntent(
      universeName := formData.cloudConfig.universeName,
      instanceType := if Truthy(ic.instanceType) then ic.instanceType.value else "",
      instanceTags := if formData.instanceTags.Some? then FilterTags(formData.instanceTags.value) else [],
      enableYSQL := ic.enableYSQL,
      enableYSQLAuth := ic.enableYSQLAuth,
      enableYCQL := ic.enableYCQL,
      enableYCQLAuth := ic.enableYCQLAuth,
      ysqlPassword := if ic.enableYSQLAuth && Truthy(ic.ysqlPassword) then ic.ysqlPassword else None,
      ycqlPassword := if ic.enableYCQLAuth && Truthy(ic.ycqlPassword) then ic.ycqlPassword else None,
      masterGFlags := MasterEntries(flags),
      tserverGFlags := TserverEntries(flags))
  }

  /** Builds the intent from the form; a password is carried over only when its authentication
      is enabled and the password is non-empty. */
  method GetUserIntent(formData: FormData) returns (intent: UserIntent)
    ensures intent == IntentOf(formData)
  {
    var masterGFlags, tserverGFlags := TransformFlagsToMasterTserver(formData.gFlags);
    var ic := formData.instanceConfig;
    var ysqlPassword: Option<string> := None;
    if ic.enableYSQLAuth && ic.ysqlPassword.Some? && ic.ysqlPassword.value != "" {
      ysqlPassword := ic.ysqlPassword;
    }
    var ycqlPassword: Option<string> := None;
    if ic.enableYCQLAuth && ic.ycqlPassword.Some? && ic.ycqlPassword.value != "" {
      ycqlPassword := ic.ycqlPassword;
    }
    assert MasterEntries([]) == [] && TserverEntries([]) == [];
    intent := UserIntent(
      universeName := formData.cloudConfig.universeName,
      instanceType := if ic.instanceType.Some? && ic.instanceType.value != "" then ic.instanceType.value else "",
      instanceTags := if formData.instanceTags.Some? then FilterTags(formData.instanceTags.value) else [],
      enableYSQL := ic.enableYSQL,
      enableYSQLAuth := ic.enableYSQLAuth,
      enableYCQL := ic.enableYCQL,
      enableYCQLAuth := ic.enableYCQLAuth,
      ysqlPassword := ysqlPassword,
      ycqlPassword := ycqlPassword,
      masterGFlags := masterGFlags,
      tserverGFlags := tserverGFlags);
  }

  /** A password reaches the intent exactly when its authentication is enabled and it is not
      empty, and then unchanged. */
  lemma IntentPasswordGating(formData: FormData)
    ensures var intent, ic := IntentOf(formData), formData.instanceConfig;
      && (intent.ysqlPassword.Some? <==> ic.enableYSQLAuth && Truthy(ic.ysqlPassword))
      && (intent.ycqlPassword.Some? <==> ic.enableYCQLAuth && Truthy(ic.ycqlPassword))
      && (intent.ysqlPassword.Some? ==> intent.ysqlPassword == ic.ysqlPassword)
      && (intent.ycqlPassword.Some? ==> intent.ycqlPassword == ic.ycqlPassword)
  {
  }

  /** The intent's tags are exactly the form's filled-in tags. */
  lemma IntentTagsAreFilledIn(formData: FormData)
    ensures forall e :: e in IntentOf(formData).instanceTags <==>
      formData.instanceTags.Some? && e in formData.instanceTags.value && e.name != "" && e.value != ""
  {
  }

  // ---------------------------------------------------------------------------------------
  // getFormData

  /** The form data for the universe's cluster of the given type, or `defaults` (the form's
      default data) when there is no such cluster. The universe data must be present: the
      function destructures it before looking for the cluster. */
  function GetFormData(universeData: UniverseDetails, clusterType: ClusterType, defaults: FormData): (r: FormData)
    ensures GetClusterByType(Some(universeData), clusterType).None? ==> r == defaults
    ensures GetClusterByType(Some(universeData), clusterType).Some? ==>
      && (r.instanceConfig.enableEncryptionAtRest <==>
          universeData.encryptionAtRestConfig.encryptionAtRestEnabled == Some(true))
      && r.instanceConfig.kmsConfig == universeData.encryptionAtRestConfig.kmsConfigUUID
      && r.instanceTags.Some?
      && |r.instanceTags.value| == |GetClusterByType(Some(universeData), clusterType).value.userIntent.instanceTags|
  {
    match GetClusterByType(Some(universeData), clusterType)
    case None => defaults
    case Some(cluster) =>
      var userIntent := cluster.userIntent;
      var encryption := universeData.encryptionAtRestConfig;
      FormData(
        cloudConfig := CloudConfig(universeName := userIntent.universeName),
        instanceConfig := InstanceConfig(
          instanceType := Some(userIntent.instanceType),
          enableYSQL := userIntent.enableYSQL,
          enableYSQLAuth := userIntent.enableYSQLAuth,
          ysqlPassword := None,
          enableYCQL := userIntent.enableYCQL,
          enableYCQLAuth := userIntent.enableYCQLAuth,
          ycqlPassword := None,
          enableEncryptionAtRest := encryption.encryptionAtRestEnabled == Some(true),
          kmsConfig := encryption.kmsConfigUUID),
        instanceTags := Some(seq(|userIntent.instanceTags|, i requires 0 <= i < |userIntent.instanceTags| =>
          Entry(userIntent.instanceTags[i].name, userIntent.instanceTags[i].value))),
        gFlags := Some(TransformMasterTserverToFlags(userIntent.masterGFlags, userIntent.tserverGFlags)))
  }

  /** Loading a cluster into the form and submitting it unchanged gives back the cluster's
      intent, except that unfilled tags are dropped and no password is carried over. */
  lemma FormRoundTrip(universeData: UniverseDetails, clusterType: ClusterType, defaults: FormData)
    requires GetClusterByType(Some(universeData), clusterType).Some?
    ensures var u := GetClusterByType(Some(universeData), clusterType).value.userIntent;
      IntentOf(GetFormData(universeData, clusterType, defaults))
        == u.(instanceTags := FilterTags(u.instanceTags), ysqlPassword := None, ycqlPassword := None)
  {
    var u := GetClusterByType(Some(universeData), clusterType).value.userIntent;
    FlagsRoundTrip(u.masterGFlags, u.tserverGFlags);
    var tags := seq(|u.instanceTags|, i requires 0 <= i < |u.instanceTags| =>
      Entry(u.instanceTags[i].name, u.instanceTags[i].value));
    assert tags == u.instanceTags;
  }
}
