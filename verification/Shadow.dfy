/** The shadow collection's life on a Solr cluster whose admin calls can fail.

    An admin call is refused when its names do not fit the cluster.  Otherwise it may work, or
    raise, and a call that raises may or may not have taken effect. */
module Shadow {
  import opened Prelude

  type Name = string

  datatype Error = RequestError | OtherError

  datatype Fate = Works | Raises(error: Error, tookEffect: bool)

  datatype Reply = Done | Failed(error: Error)

  /** The stored files, and the schema commands that have been applied on top. */
  datatype Configset = Configset(files: map<Name, string>, commands: seq<string>)

  /** One fate per admin call; the n-th schema command has fate schema(n). */
  datatype Faults = Faults(
    promote: Fate,
    dropUploaded: Fate,
    upload: Fate,
    clone: Fate,
    collection: Fate,
    schema: nat -> Fate,
    dropCollection: Fate,
    dropConfigset: Fate)

  ghost predicate NoFaults(f: Faults) {
    && f.promote.Works? && f.dropUploaded.Works? && f.upload.Works? && f.clone.Works? && f.collection.Works?
    && (forall i :: f.schema(i).Works?) && f.dropCollection.Works? && f.dropConfigset.Works?
  }

  predicate TakesEffect(fate: Fate) {
    fate.Works? || fate.tookEffect
  }

  function Answer(refused: bool, fate: Fate): Reply {
    if refused then Failed(RequestError) else if fate.Works? then Done else Failed(fate.error)
  }

  // ----- the cluster -----

  class Cluster {
    var collections: map<Name, Name>
    var configsets: map<Name, Configset>

    /** Every collection's configset exists. */
    ghost predicate Valid()
      reads this
    {
      forall c :: c in collections ==> collections[c] in configsets
    }

    method UploadConfigset(name: Name, content: Configset, fate: Fate) returns (reply: Reply)
      requires Valid()
      modifies this`configsets
      ensures Valid()
      ensures reply == Answer(false, fate)
      ensures configsets == if TakesEffect(fate) then old(configsets)[name := content] else old(configsets)
    {
      if fate.Works? || fate.tookEffect {
        configsets := configsets[name := content];
      }
      reply := if fate.Works? then Done else Failed(fate.error);
    }

    method CreateConfigset(name: Name, base: Name, fate: Fate) returns (reply: Reply)
      requires Valid()
      modifies this`configsets
      ensures Valid()
      ensures var refused := name in old(configsets) || base !in old(configsets);
              && reply == Answer(refused, fate)
              && configsets == if !refused && TakesEffect(fate)
                               then old(configsets)[name := old(configsets)[base]] else old(configsets)
    {
      if name in configsets || base !in configsets {
        return Failed(RequestError);
      }
      if fate.Works? || fate.tookEffect {
        configsets := configsets[name := configsets[base]];
      }
      reply := if fate.Works? then Done else Failed(fate.error);
    }

    method DeleteConfigset(name: Name, fate: Fate) returns (reply: Reply)
      requires Valid()
      modifies this`configsets
      ensures Valid()
      ensures var refused := name !in old(configsets) || name in collections.Values;
              && reply == Answer(refused, fate)
              && configsets ==
                 if !refused && TakesEffect(fate) then old(configsets) - {name} else old(configsets)
    {
      if name !in configsets || name in collections.Values {
        return Failed(RequestError);
      }
      if fate.Works? || fate.tookEffect {
        configsets := configsets - {name};
      }
      reply := if fate.Works? then Done else Failed(fate.error);
    }

    method CreateCollection(name: Name, configset: Name, fate: Fate) returns (reply: Reply)
      requires Valid()
      modifies this`collections
      ensures Valid()
      ensures var refused := name in old(collections) || configset !in configsets;
              && reply == Answer(refused, fate)
              && collections ==
                 if !refused && TakesEffect(fate) then old(collections)[name := configset] else old(collections)
    {
      if name in collections || configset !in configsets {
        return Failed(RequestError);
      }
      if fate.Works? || fate.tookEffect {
        collections := collections[name := configset];
      }
      reply := if fate.Works? then Done else Failed(fate.error);
    }

    method DeleteCollection(name: Name, fate: Fate) returns (reply: Reply)
      requires Valid()
      modifies this`collections
      ensures Valid()
      ensures var refused := name !in old(collections);
              && reply == Answer(refused, fate)
              && collections ==
                 if !refused && TakesEffect(fate) then old(collections) - {name} else old(collections)
    {
      if name !in collections {
        return Failed(RequestError);
      }
      if fate.Works? || fate.tookEffect {
        collections := collections - {name};
      }
      reply := if fate.Works? then Done else Failed(fate.error);
    }

    /** A schema command changes the configset the collection uses, shared or not. */
    method PostSchemaCommand(collection: Name, command: string, fate: Fate) returns (reply: Reply)
      requires Valid()
      modifies this`configsets
      ensures Valid()
      ensures var refused := collection !in collections;
              && reply == Answer(refused, fate)
              && configsets == if !refused && TakesEffect(fate)
                               then Commanded(old(configsets), collections[collection], [command]) else old(configsets)
    {
      if collection !in collections {
        return Failed(RequestError);
      }
      if fate.Works? || fate.tookEffect {
        configsets := Commanded(configsets, collections[collection], [command]);
      }
      reply := if fate.Works? then Done else Failed(fate.error);
    }
  }

  function Commanded(configsets: map<Name, Configset>, name: Name, commands: seq<string>): map<Name, Configset>
    requires name in configsets
  {
    configsets[name := WithCommands(configsets[name], commands)]
  }

  function WithCommands(c: Configset, commands: seq<string>): Configset {
    c.(commands := c.commands + commands)
  }

  lemma CommandedInSteps(configsets: map<Name, Configset>, name: Name, a: seq<string>, b: seq<string>)
    requires name in configsets
    ensures Commanded(configsets, name, []) == configsets
    ensures Commanded(Commanded(configsets, name, a), name, b) == Commanded(configsets, name, a + b)
  {
    var c := configsets[name];
    assert c.commands + [] == c.commands;
    assert (c.commands + a) + b == c.commands + (a + b);
  }

  // ----- creating the shadow -----

  datatype Request = Request(
    baselineCollection: Name,
    shadowName: Name,
    hasUpdates: bool,
    workspace: Result<Configset, Error>,
    promote: bool,
    allowFallback: bool,
    commands: seq<string>)
  {
    function Uploaded(): Name { shadowName + "__cfg" }

    function Promoted(): Name { Uploaded() + "__trusted" }
  }

  datatype Warning = PromotionFailed | PatchWorkflowFailed | SharedConfigset

  datatype Manifest = Manifest(
    shadowCollection: Name,
    shadowConfigset: Name,
    baselineConfigset: Name,
    isolated: bool,
    patched: bool,
    warnings: seq<Warning>)

  /** Every collection of `before` is still there, on the same configset. */
  ghost predicate KeepsCollections(before: map<Name, Name>, after: map<Name, Name>) {
    forall c :: c in before ==> c in after && after[c] == before[c]
  }

  /** Every configset of `before` is still there with its content, except perhaps for the content of `touched`. */
  ghost predicate KeepsConfigsets(before: map<Name, Configset>, after: map<Name, Configset>, touched: set<Name>) {
    forall s :: s in before ==> s in after && (s !in touched ==> after[s] == before[s])
  }

  /** The upload is the one call that replaces what is there: its name must be unused if it is made. */
  predicate UploadIsSafe(r: Request, configsets: map<Name, Configset>) {
    r.hasUpdates ==> r.Uploaded() !in configsets
  }

  /** Nothing but the two configset names derived from the shadow's name is added. */
  ghost predicate AddsOnlyShadow(r: Request, before: map<Name, Configset>, after: map<Name, Configset>) {
    forall s :: s in after ==> s in before || s == r.Uploaded() || s == r.Promoted()
  }

  // ----- what create_shadow does, as a function of the cluster and the fates -----

  datatype Patched = Patched(reply: Reply, configset: Name, warnings: seq<Warning>, configsets: map<Name, Configset>)

  /** Upload, promotion and removal of the upload; `inUse` are the configsets that collections use. */
  function PatchResult(r: Request, f: Faults, inUse: set<Name>, configsets: map<Name, Configset>): Patched {
    if r.workspace.Err? then Patched(Failed(r.workspace.error), r.Uploaded(), [], configsets)
    else
      var uploaded := if TakesEffect(f.upload) then configsets[r.Uploaded() := r.workspace.value] else configsets;
      if f.upload.Raises? then Patched(Failed(f.upload.error), r.Uploaded(), [], uploaded)
      else if !r.promote then Patched(Done, r.Uploaded(), [], uploaded)
      else PromotionResult(r, f, inUse, uploaded)
  }

  function PromotionResult(r: Request, f: Faults, inUse: set<Name>, uploaded: map<Name, Configset>): Patched
    requires r.workspace.Ok?
  {
    var refused := r.Promoted() in uploaded;
    var answer := Answer(refused, f.promote);
    var promoted :=
      if !refused && TakesEffect(f.promote) then uploaded[r.Promoted() := r.workspace.value] else uploaded;
    if answer == Failed(RequestError) then Patched(Done, r.Uploaded(), [PromotionFailed], promoted)
    else if answer.Failed? then Patched(answer, r.Uploaded(), [], promoted)
    else
      var kept := r.Uploaded() in inUse;
      var dropped := if !kept && TakesEffect(f.dropUploaded) then promoted - {r.Uploaded()} else promoted;
      if Answer(kept, f.dropUploaded) == Failed(OtherError) then Patched(Failed(OtherError), r.Uploaded(), [], dropped)
      else Patched(Done, r.Promoted(), [], dropped)
  }

  datatype Choice = Choice(configset: Name, isolated: bool, patched: bool, warnings: seq<Warning>)

  datatype Chosen = Chosen(reply: Reply, choice: Choice, configsets: map<Name, Configset>)

  predicate CloneRefused(r: Request, baseline: Name, configsets: map<Name, Configset>) {
    r.Uploaded() in configsets || baseline !in configsets
  }

  function AfterClone(r: Request, f: Faults, baseline: Name, configsets: map<Name, Configset>): map<Name, Configset> {
    if !CloneRefused(r, baseline, configsets) && TakesEffect(f.clone)
    then configsets[r.Uploaded() := configsets[baseline]] else configsets
  }

  /** The clone of the baseline, or the baseline's own configset if the clone raises a request error. */
  function CloneResult(r: Request, f: Faults, baseline: Name, warnings: seq<Warning>, shared: seq<Warning>,
                       configsets: map<Name, Configset>): Chosen
  {
    var answer := Answer(CloneRefused(r, baseline, configsets), f.clone);
    var after := AfterClone(r, f, baseline, configsets);
    if answer == Failed(RequestError) && r.allowFallback
    then Chosen(Done, Choice(baseline, false, false, shared), after)
    else Chosen(answer, Choice(r.Uploaded(), true, false, warnings), after)
  }

  function ChoiceResult(r: Request, f: Faults, baseline: Name, inUse: set<Name>,
      configsets: map<Name, Configset>): Chosen
  {
    if !r.hasUpdates then CloneResult(r, f, baseline, [], [SharedConfigset], configsets)
    else
      var p := PatchResult(r, f, inUse, configsets);
      if p.reply.Done? then Chosen(Done, Choice(p.configset, true, true, p.warnings), p.configsets)
      else if !r.allowFallback then Chosen(p.reply, Choice(r.Uploaded(), true, false, []), p.configsets)
      else
        var warnings := p.warnings + [PatchWorkflowFailed];
        CloneResult(r, f, baseline, warnings, warnings, p.configsets)
  }

  datatype Posted = Posted(count: nat, reply: Reply)

  /** How many schema commands have taken effect once posting them from position i on ends, and how it ends. */
  function CommandsTaken(commands: seq<string>, f: Faults, i: nat): (r: Posted)
    requires i <= |commands|
    ensures i <= r.count <= |commands| && (r.reply.Done? ==> r.count == |commands|)
    decreases |commands| - i
  {
    if i == |commands| then Posted(i, Done)
    else
      match f.schema(i)
      case Works => CommandsTaken(commands, f, i + 1)
      case Raises(error, tookEffect) => Posted(if tookEffect then i + 1 else i, Failed(error))
  }

  datatype Created =
    Created(result: Result<Manifest, Error>, collections: map<Name, Name>, configsets: map<Name, Configset>)

  function CreateResult(r: Request, f: Faults, collections: map<Name, Name>,
      configsets: map<Name, Configset>): Created
  {
    if r.baselineCollection !in collections then Created(Err(OtherError), collections, configsets)
    else
      var baseline := collections[r.baselineCollection];
      var c := ChoiceResult(r, f, baseline, collections.Values, configsets);
      if c.reply.Failed? then Created(Err(c.reply.error), collections, c.configsets)
      else CollectionResult(r, f, baseline, c.choice, collections, c.configsets)
  }

  predicate CollectionRefused(r: Request, c: Choice, collections: map<Name, Name>, configsets: map<Name, Configset>) {
    r.shadowName in collections || c.configset !in configsets
  }

  /** The collection on the chosen configset, and the schema commands if creating it worked. */
  function CollectionResult(r: Request, f: Faults, baseline: Name, c: Choice,
                            collections: map<Name, Name>, configsets: map<Name, Configset>): Created
  {
    var refused := CollectionRefused(r, c, collections, configsets);
    var answer := Answer(refused, f.collection);
    var after := if !refused && TakesEffect(f.collection) then collections[r.shadowName := c.configset]
      else collections;
    if answer.Failed? then Created(Err(answer.error), after, configsets)
    else
      var posted := CommandsTaken(r.commands, f, 0);
      var commanded := Commanded(configsets, c.configset, r.commands[..posted.count]);
      if posted.reply.Failed? then Created(Err(posted.reply.error), after, commanded)
      else
        Created(Ok(Manifest(r.shadowName, c.configset, baseline, c.isolated, c.patched, c.warnings)), after, commanded)
  }

  // ----- patching -----

  lemma PatchKeepsOthers(r: Request, f: Faults, inUse: set<Name>, configsets: map<Name, Configset>)
    ensures var p := PatchResult(r, f, inUse, configsets);
            && AddsOnlyShadow(r, configsets, p.configsets)
            && (r.Uploaded() !in configsets ==> KeepsConfigsets(configsets, p.configsets, {}))
            && forall s :: s in configsets && s != r.Uploaded() ==>
              s in p.configsets && p.configsets[s] == configsets[s]
  {
  }

  lemma PatchSucceeds(r: Request, f: Faults, inUse: set<Name>, configsets: map<Name, Configset>)
    ensures var p := PatchResult(r, f, inUse, configsets);
            p.reply.Done? ==>
              && r.workspace.Ok? && p.configset in p.configsets && p.configsets[p.configset] == r.workspace.value
              && (p.configset == r.Uploaded() || (p.configset == r.Promoted() && p.configset !in configsets))
              && forall w :: w in p.warnings ==> w == PromotionFailed
    ensures NoFaults(f) && r.workspace.Ok? && r.Promoted() !in configsets && r.Uploaded() !in configsets
            && r.Uploaded() !in inUse ==>
              var p := PatchResult(r, f, inUse, configsets);
              && p.reply.Done? && p.configset == (if r.promote then r.Promoted() else r.Uploaded())
              && p.configsets == configsets[p.configset := r.workspace.value]
  {
  }

  /** The upload reaches the cluster. */
  predicate Uploads(r: Request, f: Faults) {
    r.hasUpdates && r.workspace.Ok? && TakesEffect(f.upload)
  }

  /** Promoting the upload works. */
  predicate Promotes(r: Request, f: Faults, configsets: map<Name, Configset>) {
    r.workspace.Ok? && f.upload.Works? && r.promote && r.Promoted() !in configsets && f.promote.Works?
  }

  /** The upload is promoted and then removed. */
  predicate RemovesUpload(r: Request, f: Faults, inUse: set<Name>, configsets: map<Name, Configset>) {
    Promotes(r, f, configsets) && r.Uploaded() !in inUse && TakesEffect(f.dropUploaded)
  }

  /** Exactly when patching costs an existing configset: its name is the upload's, the upload took effect,
      and it either held something else or is removed after the promotion. */
  lemma LossExactly(r: Request, f: Faults, inUse: set<Name>, configsets: map<Name, Configset>)
    ensures !KeepsConfigsets(configsets, PatchResult(r, f, inUse, configsets).configsets, {}) <==>
            && r.Uploaded() in configsets && r.workspace.Ok? && TakesEffect(f.upload)
            && (configsets[r.Uploaded()] != r.workspace.value || RemovesUpload(r, f, inUse, configsets))
  {
    PatchKeepsOthers(r, f, inUse, configsets);
  }

  /** Uploads the patched configset and tries to promote it; an error means the whole workflow is abandoned. */
  method PatchWorkflow(cluster: Cluster, r: Request, f: Faults)
    returns (reply: Reply, configset: Name, warnings: seq<Warning>)
    requires cluster.Valid()
    modifies cluster`configsets
    ensures cluster.Valid()
    ensures Patched(reply, configset, warnings, cluster.configsets) ==
            PatchResult(r, f, cluster.collections.Values, old(cluster.configsets))
    ensures AddsOnlyShadow(r, old(cluster.configsets), cluster.configsets)
    ensures r.Uploaded() !in old(cluster.configsets) ==>
            KeepsConfigsets(old(cluster.configsets), cluster.configsets, {})
    ensures reply.Done? ==>
              && r.workspace.Ok? && configset in cluster.configsets
              && cluster.configsets[configset] == r.workspace.value
              && (configset == r.Uploaded() || (configset == r.Promoted() && configset !in old(cluster.configsets)))
    ensures reply.Failed? <==> PatchFails(r, f, cluster.collections.Values, old(cluster.configsets))
    ensures PatchExplained(r, f, old(cluster.configsets), reply, configset, warnings)
  {
    configset, warnings := r.Uploaded(), [];
    PatchFailsExactly(r, f, cluster.collections.Values, cluster.configsets);
    PatchedExactly(r, f, cluster.collections.Values, cluster.configsets);
    PatchKeepsOthers(r, f, cluster.collections.Values, cluster.configsets);
    PatchSucceeds(r, f, cluster.collections.Values, cluster.configsets);
    if r.workspace.Err? {
      return Failed(r.workspace.error), configset, warnings;
    }
    reply := cluster.UploadConfigset(configset, r.workspace.value, f.upload);
    if reply.Failed? || !r.promote {
      return;
    }
    var promoted := cluster.CreateConfigset(r.Promoted(), configset, f.promote);
    if promoted == Failed(RequestError) {
      warnings := [PromotionFailed];
      return;
    }
    if promoted.Failed? {
      return promoted, configset, warnings;
    }
    var dropped := cluster.DeleteConfigset(configset, f.dropUploaded);
    if dropped == Failed(OtherError) {
      return dropped, configset, warnings;
    }
    configset := r.Promoted();
  }

  // ----- choosing the configset -----

  /** What the shadow starts from, before any schema command. */
  function StartingContent(r: Request, baseline: Configset, patched: bool): Configset {
    if patched && r.workspace.Ok? then r.workspace.value else baseline
  }

  ghost predicate ChoiceFits(r: Request, baseline: Name, c: Choice) {
    && (c.patched ==> c.isolated && r.hasUpdates && r.workspace.Ok?)
    && (r.hasUpdates && !c.patched ==> r.allowFallback && PatchWorkflowFailed in c.warnings)
    && (c.isolated ==> c.configset == r.Uploaded() || c.configset == r.Promoted())
    && (!c.isolated ==> r.allowFallback && c.configset == baseline && c.warnings != [])
  }

  ghost predicate ChoiceIsNew(
      r: Request, baseline: Name, before: map<Name, Configset>, after: map<Name, Configset>, c: Choice)
    requires baseline in before
  {
    && c.configset in after
    && after[c.configset] == StartingContent(r, before[baseline], c.patched)
    && (c.isolated ==> c.configset !in before)
  }

  /** The derived configset names are unused and the workspace can be prepared. */
  predicate RoomForConfigset(r: Request, configsets: map<Name, Configset>) {
    r.Uploaded() !in configsets && r.Promoted() !in configsets && (r.hasUpdates ==> r.workspace.Ok?)
  }

  lemma ChoiceSound(r: Request, f: Faults, baseline: Name, inUse: set<Name>, configsets: map<Name, Configset>)
    requires baseline in configsets
    ensures var c := ChoiceResult(r, f, baseline, inUse, configsets);
            && AddsOnlyShadow(r, configsets, c.configsets)
            && (c.reply.Done? ==> ChoiceFits(r, baseline, c.choice))
            && (UploadIsSafe(r, configsets) ==>
                  && KeepsConfigsets(configsets, c.configsets, {})
                  && (c.reply.Done? ==> ChoiceIsNew(r, baseline, configsets, c.configsets, c.choice)))
  {
    PatchKeepsOthers(r, f, inUse, configsets);
    PatchSucceeds(r, f, inUse, configsets);
  }

  lemma ChoiceWithoutFaults(r: Request, f: Faults, baseline: Name, inUse: set<Name>, configsets: map<Name, Configset>)
    requires baseline in configsets && NoFaults(f) && RoomForConfigset(r, configsets) && inUse <= configsets.Keys
    ensures var c := ChoiceResult(r, f, baseline, inUse, configsets);
            && c.reply.Done? && c.choice.isolated && c.choice.patched == r.hasUpdates
            && c.configsets.Keys == configsets.Keys + {c.choice.configset}
  {
    PatchSucceeds(r, f, inUse, configsets);
  }

  /** When the patch workflow fails. */
  predicate PatchFails(r: Request, f: Faults, inUse: set<Name>, configsets: map<Name, Configset>) {
    || r.workspace.Err? || f.upload.Raises?
    || (r.promote && r.Promoted() !in configsets
        && (if f.promote.Raises? then f.promote.error.OtherError?
            else r.Uploaded() !in inUse && f.dropUploaded.Raises? && f.dropUploaded.error.OtherError?))
  }

  lemma PatchFailsExactly(r: Request, f: Faults, inUse: set<Name>, configsets: map<Name, Configset>)
    ensures PatchResult(r, f, inUse, configsets).reply.Failed? <==> PatchFails(r, f, inUse, configsets)
  {
  }

  /** The baseline is cloned when there is nothing to patch, or as a fallback. */
  predicate TriesClone(r: Request, f: Faults, inUse: set<Name>, configsets: map<Name, Configset>) {
    !r.hasUpdates || (r.allowFallback && PatchFails(r, f, inUse, configsets))
  }

  /** The clone's name is taken by then, also by what the patch workflow has left of the upload, or it is the
      baseline's own. */
  predicate CloneRejected(r: Request, f: Faults, baseline: Name, inUse: set<Name>, configsets: map<Name, Configset>) {
    || r.Uploaded() == baseline
    || ((r.Uploaded() in configsets || Uploads(r, f))
        && !(r.hasUpdates && RemovesUpload(r, f, inUse, configsets)))
  }

  /** Fallback is allowed, and the clone is tried and is rejected or raises a request error. */
  predicate SharesBaseline(r: Request, f: Faults, baseline: Name, inUse: set<Name>, configsets: map<Name, Configset>) {
    && r.allowFallback && TriesClone(r, f, inUse, configsets)
    && (CloneRejected(r, f, baseline, inUse, configsets) || (f.clone.Raises? && f.clone.error.RequestError?))
  }

  /** The configsets at the moment the baseline is cloned, if it is. */
  function BeforeClone(r: Request, f: Faults, inUse: set<Name>, configsets: map<Name, Configset>)
      : map<Name, Configset>
  {
    if r.hasUpdates then PatchResult(r, f, inUse, configsets).configsets else configsets
  }

  lemma CloneRejectedExactly(r: Request, f: Faults, baseline: Name, inUse: set<Name>, configsets: map<Name, Configset>)
    requires baseline in configsets
    ensures CloneRefused(r, baseline, BeforeClone(r, f, inUse, configsets)) <==>
            CloneRejected(r, f, baseline, inUse, configsets)
  {
    PatchKeepsOthers(r, f, inUse, configsets);
  }

  /** The shared configset is chosen under exactly these conditions. */
  lemma SharedExactly(r: Request, f: Faults, baseline: Name, inUse: set<Name>, configsets: map<Name, Configset>)
    requires baseline in configsets
    ensures var c := ChoiceResult(r, f, baseline, inUse, configsets);
            c.reply.Done? && !c.choice.isolated <==> SharesBaseline(r, f, baseline, inUse, configsets)
  {
    CloneRejectedExactly(r, f, baseline, inUse, configsets);
    PatchFailsExactly(r, f, inUse, configsets);
  }

  // ----- what choosing the configset leaves behind -----

  /** The clone takes effect. */
  predicate Clones(r: Request, f: Faults, baseline: Name, inUse: set<Name>, configsets: map<Name, Configset>) {
    && TriesClone(r, f, inUse, configsets) && !CloneRejected(r, f, baseline, inUse, configsets)
    && TakesEffect(f.clone)
  }

  /** Nothing is cloned, and an upload finds its content in place and is not promoted. */
  predicate ChoosesQuietly(r: Request, f: Faults, baseline: Name, inUse: set<Name>, configsets: map<Name, Configset>) {
    && !Clones(r, f, baseline, inUse, configsets)
    && (Uploads(r, f) ==>
          && r.Uploaded() in configsets && configsets[r.Uploaded()] == r.workspace.value
          && !(f.upload.Works? && r.promote && r.Promoted() !in configsets && TakesEffect(f.promote)))
  }

  /** Choosing the configset changes nothing under exactly these conditions. */
  lemma ChoosesQuietlyExactly(
      r: Request, f: Faults, baseline: Name, inUse: set<Name>, configsets: map<Name, Configset>)
    requires baseline in configsets
    ensures ChoiceResult(r, f, baseline, inUse, configsets).configsets == configsets <==>
            ChoosesQuietly(r, f, baseline, inUse, configsets)
  {
    CloneRejectedExactly(r, f, baseline, inUse, configsets);
    PatchFailsExactly(r, f, inUse, configsets);
    PatchQuietlyExactly(r, f, inUse, configsets);
    var before := BeforeClone(r, f, inUse, configsets);
    if before == configsets && Clones(r, f, baseline, inUse, configsets) {
      assert r.Uploaded() !in before;
    }
    if before != configsets && Clones(r, f, baseline, inUse, configsets) {
      PromotedStays(r, f, inUse, configsets);
    }
  }

  function Lookup(configsets: map<Name, Configset>, name: Name): Option<Configset> {
    if name in configsets then Some(configsets[name]) else None
  }

  lemma PatchQuietlyExactly(r: Request, f: Faults, inUse: set<Name>, configsets: map<Name, Configset>)
    ensures PatchResult(r, f, inUse, configsets).configsets == configsets <==>
            (r.workspace.Ok? && TakesEffect(f.upload) ==>
              && r.Uploaded() in configsets && configsets[r.Uploaded()] == r.workspace.value
              && !(f.upload.Works? && r.promote && r.Promoted() !in configsets && TakesEffect(f.promote)))
  {
    PromotedStays(r, f, inUse, configsets);
    var after := PatchResult(r, f, inUse, configsets).configsets;
    if r.workspace.Ok? && TakesEffect(f.upload) && !RemovesUpload(r, f, inUse, configsets) {
      assert r.Uploaded() in after && after[r.Uploaded()] == r.workspace.value;
    }
  }

  /** A promotion that takes effect adds a configset for good. */
  lemma PromotedStays(r: Request, f: Faults, inUse: set<Name>, configsets: map<Name, Configset>)
    ensures r.workspace.Ok? && f.upload.Works? && r.promote && r.Promoted() !in configsets && TakesEffect(f.promote) ==>
              r.Promoted() in PatchResult(r, f, inUse, configsets).configsets
  {
  }

  /** What a configset that was there before holds after the choice, if it is still there. */
  function HeldAfterChoice(r: Request, f: Faults, baseline: Name, inUse: set<Name>, configsets: map<Name, Configset>,
      s: Name): Option<Configset>
    requires s in configsets && baseline in configsets
  {
    if s != r.Uploaded() || !Uploads(r, f) then Some(configsets[s])
    else if !RemovesUpload(r, f, inUse, configsets) then Some(r.workspace.value)
    else if Clones(r, f, baseline, inUse, configsets) then Some(configsets[baseline])
    else None
  }

  lemma HeldExactly(r: Request, f: Faults, baseline: Name, inUse: set<Name>, configsets: map<Name, Configset>, s: Name)
    requires s in configsets && baseline in configsets
    ensures Lookup(ChoiceResult(r, f, baseline, inUse, configsets).configsets, s) ==
            HeldAfterChoice(r, f, baseline, inUse, configsets, s)
  {
    CloneRejectedExactly(r, f, baseline, inUse, configsets);
    PatchFailsExactly(r, f, inUse, configsets);
    PatchKeepsOthers(r, f, inUse, configsets);
  }

  /** The shadow gets a configset of its own, under the upload's name. */
  predicate OwnsUploadName(r: Request, f: Faults, baseline: Name, inUse: set<Name>, configsets: map<Name, Configset>) {
    || (r.hasUpdates && !PatchFails(r, f, inUse, configsets) && !Promotes(r, f, configsets))
    || (TriesClone(r, f, inUse, configsets) && !CloneRejected(r, f, baseline, inUse, configsets) && f.clone.Works?)
  }

  /** The shadow ends up on a configset that was there before. */
  predicate Uses(r: Request, f: Faults, baseline: Name, inUse: set<Name>, configsets: map<Name, Configset>, s: Name) {
    || (s == r.Uploaded() && OwnsUploadName(r, f, baseline, inUse, configsets))
    || (s == baseline && SharesBaseline(r, f, baseline, inUse, configsets))
  }

  lemma UsesExactly(r: Request, f: Faults, baseline: Name, inUse: set<Name>, configsets: map<Name, Configset>, s: Name)
    requires s in configsets && baseline in configsets
    ensures var c := ChoiceResult(r, f, baseline, inUse, configsets);
            && (c.reply.Done? && c.choice.configset == s <==> Uses(r, f, baseline, inUse, configsets, s))
            && (c.reply.Done? && c.choice.configset == s && c.choice.isolated <==>
                s == r.Uploaded() && OwnsUploadName(r, f, baseline, inUse, configsets))
  {
    CloneRejectedExactly(r, f, baseline, inUse, configsets);
    PatchFailsExactly(r, f, inUse, configsets);
  }

  /** Choosing a configset works. */
  predicate ChoiceWorks(r: Request, f: Faults, baseline: Name, inUse: set<Name>, configsets: map<Name, Configset>) {
    || (r.hasUpdates && !PatchFails(r, f, inUse, configsets))
    || (TriesClone(r, f, inUse, configsets) && !CloneRejected(r, f, baseline, inUse, configsets) && f.clone.Works?)
    || SharesBaseline(r, f, baseline, inUse, configsets)
  }

  lemma ChoiceWorksExactly(r: Request, f: Faults, baseline: Name, inUse: set<Name>, configsets: map<Name, Configset>)
    requires baseline in configsets && baseline in inUse
    ensures var c := ChoiceResult(r, f, baseline, inUse, configsets);
            && (c.reply.Done? <==> ChoiceWorks(r, f, baseline, inUse, configsets))
            && (c.reply.Done? ==> c.choice.configset in c.configsets)
  {
    CloneRejectedExactly(r, f, baseline, inUse, configsets);
    PatchFailsExactly(r, f, inUse, configsets);
    PatchSucceeds(r, f, inUse, configsets);
    PatchKeepsOthers(r, f, inUse, configsets);
  }

  // ----- what the choice says and leaves behind, in full -----

  /** The upload, promoted if that works; a promotion that is refused is the one warning. */
  ghost predicate PatchExplained(r: Request, f: Faults, configsets: map<Name, Configset>, reply: Reply,
                                 configset: Name, warnings: seq<Warning>)
  {
    match reply
    case Done =>
      && configset == (if Promotes(r, f, configsets) then r.Promoted() else r.Uploaded())
      && warnings == if r.promote && !Promotes(r, f, configsets) then [PromotionFailed] else []
    case Failed(error) => warnings == [] && PatchError(r, f, error)
  }

  lemma PatchedExactly(r: Request, f: Faults, inUse: set<Name>, configsets: map<Name, Configset>)
    ensures var p := PatchResult(r, f, inUse, configsets);
            PatchExplained(r, f, configsets, p.reply, p.configset, p.warnings)
  {
  }

  /** The first failure of the patch workflow is what it raises. */
  predicate PatchError(r: Request, f: Faults, error: Error) {
    if r.workspace.Err? then error == r.workspace.error
    else if f.upload.Raises? then error == f.upload.error
    else error.OtherError?
  }

  /** The baseline's own configset, the promoted one, or one under the upload's name. */
  ghost function ChosenName(r: Request, f: Faults, baseline: Name, inUse: set<Name>, configsets: map<Name, Configset>)
      : Name
  {
    if SharesBaseline(r, f, baseline, inUse, configsets) then baseline
    else if r.hasUpdates && !PatchFails(r, f, inUse, configsets) && Promotes(r, f, configsets) then r.Promoted()
    else r.Uploaded()
  }

  /** The configset's name, and each warning exactly under its condition. */
  ghost predicate ChoiceExplained(r: Request, f: Faults, baseline: Name, inUse: set<Name>,
      configsets: map<Name, Configset>, c: Choice)
  {
    var fails := PatchFails(r, f, inUse, configsets);
    && (c.isolated <==> !SharesBaseline(r, f, baseline, inUse, configsets))
    && (c.patched <==> r.hasUpdates && !fails)
    && c.configset == ChosenName(r, f, baseline, inUse, configsets)
    && (PromotionFailed in c.warnings <==> c.patched && r.promote && !Promotes(r, f, configsets))
    && (PatchWorkflowFailed in c.warnings <==> r.hasUpdates && fails)
    && (SharedConfigset in c.warnings <==> !r.hasUpdates && !c.isolated)
    && |c.warnings| <= 1
  }

  /** The patch workflow's error if falling back is not allowed, else the clone's. */
  ghost predicate ChoiceError(r: Request, f: Faults, baseline: Name, inUse: set<Name>, configsets: map<Name, Configset>,
                              error: Error)
  {
    if !TriesClone(r, f, inUse, configsets) then PatchError(r, f, error)
    else if CloneRejected(r, f, baseline, inUse, configsets) then error.RequestError?
    else f.clone.Raises? && error == f.clone.error
  }

  lemma ChoiceExactly(r: Request, f: Faults, baseline: Name, inUse: set<Name>, configsets: map<Name, Configset>)
    requires baseline in configsets && baseline in inUse
    ensures var c := ChoiceResult(r, f, baseline, inUse, configsets);
            && (c.reply.Done? <==> ChoiceWorks(r, f, baseline, inUse, configsets))
            && (c.reply.Done? ==> ChoiceExplained(r, f, baseline, inUse, configsets, c.choice))
            && (c.reply.Failed? ==> ChoiceError(r, f, baseline, inUse, configsets, c.reply.error))
  {
    ChoiceWorksExactly(r, f, baseline, inUse, configsets);
    CloneRejectedExactly(r, f, baseline, inUse, configsets);
    PatchFailsExactly(r, f, inUse, configsets);
    PatchedExactly(r, f, inUse, configsets);
  }

  /** What choosing adds: the promoted configset, and one under the upload's name, cloned or uploaded. */
  function AddedByChoice(r: Request, f: Faults, baseline: Name, inUse: set<Name>, configsets: map<Name, Configset>,
      s: Name): Option<Configset>
    requires baseline in configsets
  {
    if s == r.Promoted() && r.hasUpdates && r.workspace.Ok? && f.upload.Works? && r.promote && TakesEffect(f.promote)
    then Some(r.workspace.value)
    else if s == r.Uploaded() && Clones(r, f, baseline, inUse, configsets) then Some(configsets[baseline])
    else if s == r.Uploaded() && Uploads(r, f) && !RemovesUpload(r, f, inUse, configsets) then Some(r.workspace.value)
    else None
  }

  lemma AddedExactly(r: Request, f: Faults, baseline: Name, inUse: set<Name>, configsets: map<Name, Configset>, s: Name)
    requires baseline in configsets && s !in configsets
    ensures Lookup(ChoiceResult(r, f, baseline, inUse, configsets).configsets, s) ==
            AddedByChoice(r, f, baseline, inUse, configsets, s)
  {
    CloneRejectedExactly(r, f, baseline, inUse, configsets);
    PatchFailsExactly(r, f, inUse, configsets);
    PatchKeepsOthers(r, f, inUse, configsets);
  }

  /** The configset for the shadow: patched, cloned, or the baseline's own one. */
  method ChooseConfigset(cluster: Cluster, r: Request, baseline: Name, f: Faults) returns (reply: Reply, choice: Choice)
    requires cluster.Valid() && baseline in cluster.configsets
    modifies cluster`configsets
    ensures cluster.Valid()
    ensures Chosen(reply, choice, cluster.configsets) ==
            ChoiceResult(r, f, baseline, cluster.collections.Values, old(cluster.configsets))
    ensures reply.Done? && !choice.isolated <==>
            SharesBaseline(r, f, baseline, cluster.collections.Values, old(cluster.configsets))
    ensures AddsOnlyShadow(r, old(cluster.configsets), cluster.configsets)
    ensures reply.Done? ==> ChoiceFits(r, baseline, choice)
    ensures UploadIsSafe(r, old(cluster.configsets)) ==>
              && KeepsConfigsets(old(cluster.configsets), cluster.configsets, {})
              && (reply.Done? ==> ChoiceIsNew(r, baseline, old(cluster.configsets), cluster.configsets, choice))
  {
    ChoiceSound(r, f, baseline, cluster.collections.Values, cluster.configsets);
    SharedExactly(r, f, baseline, cluster.collections.Values, cluster.configsets);
    choice := Choice(r.Uploaded(), true, false, []);
    if r.hasUpdates {
      PatchKeepsOthers(r, f, cluster.collections.Values, cluster.configsets);
      var configset, warnings;
      reply, configset, warnings := PatchWorkflow(cluster, r, f);
      if reply.Done? {
        return Done, Choice(configset, true, true, warnings);
      }
      if !r.allowFallback {
        return;
      }
      choice := choice.(warnings := warnings + [PatchWorkflowFailed]);
      reply := cluster.CreateConfigset(choice.configset, baseline, f.clone);
      if reply == Failed(RequestError) {
        reply, choice := Done, choice.(configset := baseline, isolated := false);
      }
    } else {
      reply := cluster.CreateConfigset(choice.configset, baseline, f.clone);
      if reply == Failed(RequestError) && r.allowFallback {
        reply, choice := Done, Choice(baseline, false, false, [SharedConfigset]);
      }
    }
  }

  // ----- the schema commands -----

  /** All commands worked and took effect, or the first that raised ended it, counted only if it took effect. */
  ghost predicate CommandsExplained(commands: seq<string>, f: Faults, count: nat, reply: Reply) {
    match reply
    case Done => count == |commands| && forall i: nat :: i < |commands| ==> f.schema(i).Works?
    case Failed(error) => exists i :: FirstFailure(commands, f, i, error, count)
  }

  ghost predicate FirstFailure(commands: seq<string>, f: Faults, i: nat, error: Error, count: nat) {
    && i < |commands| && (forall j: nat :: j < i ==> f.schema(j).Works?)
    && f.schema(i).Raises? && f.schema(i).error == error && count == if f.schema(i).tookEffect then i + 1 else i
  }

  lemma {:induction false} TakenExactly(commands: seq<string>, f: Faults, i: nat)
    requires i <= |commands| && forall j: nat :: j < i ==> f.schema(j).Works?
    ensures var r := CommandsTaken(commands, f, i); CommandsExplained(commands, f, r.count, r.reply)
    decreases |commands| - i
  {
    if i < |commands| {
      if f.schema(i).Works? {
        TakenExactly(commands, f, i + 1);
      } else {
        var r := CommandsTaken(commands, f, i);
        assert FirstFailure(commands, f, i, r.reply.error, r.count);
      }
    }
  }

  /** The changeset's schema commands, one by one, until one raises. */
  method ApplySchemaCommands(cluster: Cluster, collection: Name, commands: seq<string>, f: Faults)
    returns (reply: Reply)
    requires cluster.Valid() && collection in cluster.collections
    modifies cluster`configsets
    ensures cluster.Valid()
    ensures reply == CommandsTaken(commands, f, 0).reply
    ensures cluster.configsets ==
            Commanded(old(cluster.configsets), cluster.collections[collection],
              commands[..CommandsTaken(commands, f, 0).count])
    ensures CommandsExplained(commands, f, CommandsTaken(commands, f, 0).count, reply)
  {
    TakenExactly(commands, f, 0);
    ghost var before, name := cluster.configsets, cluster.collections[collection];
    CommandedInSteps(before, name, [], []);
    for i := 0 to |commands|
      invariant cluster.Valid()
      invariant CommandsTaken(commands, f, 0) == CommandsTaken(commands, f, i)
      invariant cluster.configsets == Commanded(before, name, commands[..i])
    {
      TakeOneMore(commands, i);
      CommandedInSteps(before, name, commands[..i], [commands[i]]);
      reply := cluster.PostSchemaCommand(collection, commands[i], f.schema(i));
      if reply.Failed? {
        return;
      }
    }
    reply := Done;
  }

  lemma CommandsKeepOthers(
      before: map<Name, Configset>, mid: map<Name, Configset>, name: Name, commands: seq<string>, touched: set<Name>)
    requires KeepsConfigsets(before, mid, {}) && name in mid && (name in before ==> name in touched)
    ensures KeepsConfigsets(before, Commanded(mid, name, commands), touched)
  {
  }

  // ----- creating the shadow -----

  /** The configsets whose content a run may change: the baseline's, and only if falling back to it is allowed. */
  function Exposed(r: Request, collections: map<Name, Name>): set<Name> {
    if r.allowFallback && r.baselineCollection in collections then {collections[r.baselineCollection]} else {}
  }

  ghost predicate ManifestFits(r: Request, collections: map<Name, Name>, collections': map<Name, Name>,
      configsets: map<Name, Configset>, m: Manifest)
  {
    && r.baselineCollection in collections && m.baselineConfigset == collections[r.baselineCollection]
    && m.baselineConfigset in configsets
    && m.shadowCollection == r.shadowName && r.shadowName !in collections
    && collections' == collections[r.shadowName := m.shadowConfigset]
    && ChoiceFits(r, m.baselineConfigset, Choice(m.shadowConfigset, m.isolated, m.patched, m.warnings))
  }

  /** The shadow runs on its starting content plus all schema commands, and isolation is real. */
  ghost predicate ContentFits(r: Request, configsets: map<Name, Configset>, configsets': map<Name, Configset>,
      m: Manifest)
    requires m.baselineConfigset in configsets
  {
    && m.shadowConfigset in configsets'
    && configsets'[m.shadowConfigset] ==
       WithCommands(StartingContent(r, configsets[m.baselineConfigset], m.patched), r.commands)
    && (m.isolated ==> m.shadowConfigset !in configsets && KeepsConfigsets(configsets, configsets', {}))
  }

  ghost predicate Consistent(collections: map<Name, Name>, configsets: map<Name, Configset>) {
    forall c :: c in collections ==> collections[c] in configsets
  }

  /** Whether create_shadow returns or raises. */
  lemma CreateSafe(r: Request, f: Faults, collections: map<Name, Name>, configsets: map<Name, Configset>)
    requires Consistent(collections, configsets)
    ensures var c := CreateResult(r, f, collections, configsets);
            && KeepsCollections(collections, c.collections)
            && (forall n :: n in c.collections ==> n in collections || n == r.shadowName)
            && AddsOnlyShadow(r, configsets, c.configsets)
            && (UploadIsSafe(r, configsets) ==> KeepsConfigsets(configsets, c.configsets, Exposed(r, collections)))
  {
    if r.baselineCollection in collections {
      var baseline := collections[r.baselineCollection];
      var c := ChoiceResult(r, f, baseline, collections.Values, configsets);
      ChoiceSound(r, f, baseline, collections.Values, configsets);
      if c.reply.Done? && UploadIsSafe(r, configsets) {
        var commands := r.commands[..CommandsTaken(r.commands, f, 0).count];
        CommandsKeepOthers(configsets, c.configsets, c.choice.configset, commands,
                           if c.choice.isolated then {} else {baseline});
      }
    }
  }

  /** When create_shadow returns, the manifest tells the truth. */
  lemma CreateTruthful(r: Request, f: Faults, collections: map<Name, Name>, configsets: map<Name, Configset>)
    requires Consistent(collections, configsets)
    ensures var c := CreateResult(r, f, collections, configsets);
            c.result.Ok? ==>
              && ManifestFits(r, collections, c.collections, configsets, c.result.value)
              && (UploadIsSafe(r, configsets) ==> ContentFits(r, configsets, c.configsets, c.result.value))
  {
    if r.baselineCollection in collections {
      var baseline := collections[r.baselineCollection];
      var c := ChoiceResult(r, f, baseline, collections.Values, configsets);
      ChoiceSound(r, f, baseline, collections.Values, configsets);
      TakeAll(r.commands);
      if c.reply.Done? && UploadIsSafe(r, configsets) {
        CommandsKeepOthers(configsets, c.configsets, c.choice.configset, r.commands,
                           if c.choice.isolated then {} else {baseline});
      }
    }
  }

  /** A returned manifest is not isolated under exactly these conditions. */
  lemma ReturnsSharedExactly(r: Request, f: Faults, collections: map<Name, Name>, configsets: map<Name, Configset>)
    requires Consistent(collections, configsets) && CreateResult(r, f, collections, configsets).result.Ok?
    ensures r.baselineCollection in collections
    ensures !CreateResult(r, f, collections, configsets).result.value.isolated <==>
            SharesBaseline(r, f, collections[r.baselineCollection], collections.Values, configsets)
  {
    SharedExactly(r, f, collections[r.baselineCollection], collections.Values, configsets);
  }

  /** After a failed patch workflow, too, the shadow can end up on the baseline's own configset, and the
      schema commands change that. */
  lemma SharedAfterFailedPatch(r: Request, f: Faults, collections: map<Name, Name>, configsets: map<Name, Configset>)
    requires Consistent(collections, configsets) && r.baselineCollection in collections && r.shadowName !in collections
    requires r.hasUpdates && r.workspace.Err? && r.allowFallback && f.clone == Raises(RequestError, false)
    requires f.collection.Works? && CommandsTaken(r.commands, f, 0).reply.Done?
    ensures var c, baseline := CreateResult(r, f, collections, configsets), collections[r.baselineCollection];
            && c.result == Ok(Manifest(r.shadowName, baseline, baseline, false, false, [PatchWorkflowFailed]))
            && c.configsets == Commanded(configsets, baseline, r.commands)
  {
    TakeAll(r.commands);
    assert ChoiceResult(r, f, collections[r.baselineCollection], collections.Values, configsets) ==
           Chosen(Done, Choice(collections[r.baselineCollection], false, false, [PatchWorkflowFailed]), configsets);
  }

  lemma CreateWithoutFaults(r: Request, f: Faults, collections: map<Name, Name>, configsets: map<Name, Configset>)
    requires Consistent(collections, configsets) && NoFaults(f) && RoomForConfigset(r, configsets)
    requires r.baselineCollection in collections && r.shadowName !in collections
    ensures var c := CreateResult(r, f, collections, configsets);
            && c.result.Ok? && c.result.value.isolated && c.result.value.patched == r.hasUpdates
            && c.configsets.Keys == configsets.Keys + {c.result.value.shadowConfigset}
  {
    ChoiceWithoutFaults(r, f, collections[r.baselineCollection], collections.Values, configsets);
    NoCommandFails(r.commands, f, 0);
  }

  lemma {:induction false} NoCommandFails(commands: seq<string>, f: Faults, i: nat)
    requires NoFaults(f) && i <= |commands|
    ensures CommandsTaken(commands, f, i) == Posted(|commands|, Done)
    decreases |commands| - i
  {
    if i < |commands| {
      assert f.schema(i).Works?;
      NoCommandFails(commands, f, i + 1);
    }
  }

  /** A collection is created. */
  predicate CreatesCollection(
      r: Request, f: Faults, baseline: Name, collections: map<Name, Name>, configsets: map<Name, Configset>)
  {
    r.shadowName !in collections && TakesEffect(f.collection)
    && ChoiceWorks(r, f, baseline, collections.Values, configsets)
  }

  /** No cleanup follows when create_shadow raises.  What is left behind is nothing if and only if the
      baseline is missing, or the configset was chosen quietly and no collection was created. */
  lemma RaiseLeavesNothingExactly(r: Request, f: Faults, collections: map<Name, Name>, configsets: map<Name, Configset>)
    requires Consistent(collections, configsets) && CreateResult(r, f, collections, configsets).result.Err?
    ensures var c := CreateResult(r, f, collections, configsets);
            c.collections == collections && c.configsets == configsets <==>
              || r.baselineCollection !in collections
              || (var baseline := collections[r.baselineCollection];
                  && ChoosesQuietly(r, f, baseline, collections.Values, configsets)
                  && !CreatesCollection(r, f, baseline, collections, configsets))
  {
    if r.baselineCollection in collections {
      var baseline := collections[r.baselineCollection];
      var chosen := ChoiceResult(r, f, baseline, collections.Values, configsets);
      ChoosesQuietlyExactly(r, f, baseline, collections.Values, configsets);
      ChoiceWorksExactly(r, f, baseline, collections.Values, configsets);
      if chosen.reply.Done? && !CollectionRefused(r, chosen.choice, collections, chosen.configsets) {
        assert r.shadowName !in collections;
      }
    }
  }

  /** Without text updates a raise leaves a configset behind if and only if the clone took effect. */
  lemma PlainRaiseLeavesCloneExactly(r: Request, f: Faults, collections: map<Name, Name>,
      configsets: map<Name, Configset>)
    requires Consistent(collections, configsets) && CreateResult(r, f, collections, configsets).result.Err?
    requires !r.hasUpdates && r.baselineCollection in collections
    ensures CreateResult(r, f, collections, configsets).configsets.Keys != configsets.Keys <==>
            !CloneRefused(r, collections[r.baselineCollection], configsets) && TakesEffect(f.clone)
  {
  }

  /** create_shadow returns. */
  ghost predicate CreateWorks(
      r: Request, f: Faults, baseline: Name, collections: map<Name, Name>, configsets: map<Name, Configset>)
  {
    && ChoiceWorks(r, f, baseline, collections.Values, configsets) && r.shadowName !in collections
    && f.collection.Works? && forall i: nat :: i < |r.commands| ==> f.schema(i).Works?
  }

  /** The first step that fails is the one that raises. */
  ghost predicate CreateError(r: Request, f: Faults, baseline: Name, collections: map<Name, Name>,
                              configsets: map<Name, Configset>, error: Error)
  {
    if !ChoiceWorks(r, f, baseline, collections.Values, configsets)
    then ChoiceError(r, f, baseline, collections.Values, configsets, error)
    else if r.shadowName in collections then error.RequestError?
    else if f.collection.Raises? then error == f.collection.error
    else exists count :: CommandsExplained(r.commands, f, count, Failed(error))
  }

  /** When create_shadow returns and with what manifest, when it raises and what, and which collection it leaves. */
  ghost predicate CreateExplained(r: Request, f: Faults, collections: map<Name, Name>, configsets: map<Name, Configset>,
                                  result: Result<Manifest, Error>, collections': map<Name, Name>)
  {
    if r.baselineCollection !in collections then result == Err(OtherError) && collections' == collections
    else
      var baseline := collections[r.baselineCollection];
      && (result.Ok? <==> CreateWorks(r, f, baseline, collections, configsets))
      && (result.Ok? ==>
            var m := result.value;
            && m.shadowCollection == r.shadowName && m.baselineConfigset == baseline
            && ChoiceExplained(r, f, baseline, collections.Values, configsets,
                               Choice(m.shadowConfigset, m.isolated, m.patched, m.warnings)))
      && (result.Err? ==> CreateError(r, f, baseline, collections, configsets, result.error))
      && collections' ==
         if CreatesCollection(r, f, baseline, collections, configsets)
         then collections[r.shadowName := ChosenName(r, f, baseline, collections.Values, configsets)] else collections
  }

  lemma CreateExactly(r: Request, f: Faults, collections: map<Name, Name>, configsets: map<Name, Configset>)
    requires Consistent(collections, configsets)
    ensures var c := CreateResult(r, f, collections, configsets);
            CreateExplained(r, f, collections, configsets, c.result, c.collections)
  {
    if r.baselineCollection in collections {
      var baseline := collections[r.baselineCollection];
      ChoiceExactly(r, f, baseline, collections.Values, configsets);
      ChoiceWorksExactly(r, f, baseline, collections.Values, configsets);
      TakenExactly(r.commands, f, 0);
      var posted := CommandsTaken(r.commands, f, 0);
      assert posted.reply.Done? <==> forall i: nat :: i < |r.commands| ==> f.schema(i).Works?;
    }
  }

  /** create_shadow, call by call: exactly the function above. */
  method IssueCalls(cluster: Cluster, r: Request, f: Faults) returns (result: Result<Manifest, Error>)
    requires cluster.Valid()
    modifies cluster
    ensures cluster.Valid()
    ensures Created(result, cluster.collections, cluster.configsets) ==
            CreateResult(r, f, old(cluster.collections), old(cluster.configsets))
  {
    if r.baselineCollection !in cluster.collections {
      return Err(OtherError);
    }
    var baseline := cluster.collections[r.baselineCollection];
    var reply, choice := ChooseConfigset(cluster, r, baseline, f);
    if reply.Failed? {
      return Err(reply.error);
    }
    reply := cluster.CreateCollection(r.shadowName, choice.configset, f.collection);
    if reply.Failed? {
      return Err(reply.error);
    }
    reply := ApplySchemaCommands(cluster, r.shadowName, r.commands, f);
    if reply.Failed? {
      return Err(reply.error);
    }
    result := Ok(Manifest(r.shadowName, choice.configset, baseline, choice.isolated, choice.patched, choice.warnings));
  }

  /** create_shadow, with every fallback, and what its callers may rely on. */
  method CreateShadow(cluster: Cluster, r: Request, f: Faults) returns (result: Result<Manifest, Error>)
    requires cluster.Valid()
    modifies cluster
    ensures cluster.Valid()
    ensures CreateExplained(r, f, old(cluster.collections), old(cluster.configsets), result, cluster.collections)
    // whether it returns or raises
    ensures KeepsCollections(old(cluster.collections), cluster.collections)
    ensures forall c :: c in cluster.collections ==> c in old(cluster.collections) || c == r.shadowName
    ensures AddsOnlyShadow(r, old(cluster.configsets), cluster.configsets)
    ensures UploadIsSafe(r, old(cluster.configsets)) ==>
              KeepsConfigsets(old(cluster.configsets), cluster.configsets, Exposed(r, old(cluster.collections)))
    // when it returns
    ensures result.Ok? ==>
              ManifestFits(r, old(cluster.collections), cluster.collections, old(cluster.configsets), result.value)
    ensures result.Ok? ==>
              (!result.value.isolated <==>
               SharesBaseline(r, f, result.value.baselineConfigset, old(cluster.collections).Values,
                 old(cluster.configsets)))
    ensures result.Ok? && UploadIsSafe(r, old(cluster.configsets)) ==>
              ContentFits(r, old(cluster.configsets), cluster.configsets, result.value)
    // when nothing fails
    ensures NoFaults(f) && r.baselineCollection in old(cluster.collections) && r.shadowName !in old(cluster.collections)
            && RoomForConfigset(r, old(cluster.configsets)) ==>
              && result.Ok? && result.value.isolated && result.value.patched == r.hasUpdates
              && cluster.configsets.Keys == old(cluster.configsets).Keys + {result.value.shadowConfigset}
  {
    CreateSafe(r, f, cluster.collections, cluster.configsets);
    CreateTruthful(r, f, cluster.collections, cluster.configsets);
    CreateExactly(r, f, cluster.collections, cluster.configsets);
    if NoFaults(f) && r.baselineCollection in cluster.collections && r.shadowName !in cluster.collections
       && RoomForConfigset(r, cluster.configsets) {
      CreateWithoutFaults(r, f, cluster.collections, cluster.configsets);
    }
    ghost var collections, configsets := cluster.collections, cluster.configsets;
    result := IssueCalls(cluster, r, f);
    if result.Ok? {
      ReturnsSharedExactly(r, f, collections, configsets);
    }
  }

  // ----- a whole run -----

  datatype Cleaned = Cleaned(reply: Reply, collections: map<Name, Name>, configsets: map<Name, Configset>)

  function CleanupResult(m: Manifest, f: Faults, collections: map<Name, Name>,
      configsets: map<Name, Configset>): Cleaned
  {
    var gone := m.shadowCollection !in collections;
    var answer := Answer(gone, f.dropCollection);
    var left :=
      if !gone && TakesEffect(f.dropCollection) then collections - {m.shadowCollection} else collections;
    if answer.Failed? || !m.isolated then Cleaned(answer, left, configsets)
    else
      var kept := m.shadowConfigset !in configsets || m.shadowConfigset in left.Values;
      Cleaned(Answer(kept, f.dropConfigset), left,
              if !kept && TakesEffect(f.dropConfigset) then configsets - {m.shadowConfigset} else configsets)
  }

  datatype Ran = Ran(created: bool, deleted: bool, collections: map<Name, Name>, configsets: map<Name, Configset>)

  /** The shadow's part of one run, as a function of the cluster and the fates. */
  function RunResult(r: Request, f: Faults, cleanup: bool, collections: map<Name, Name>,
      configsets: map<Name, Configset>): Ran
  {
    var c := CreateResult(r, f, collections, configsets);
    if c.result.Err? then Ran(false, false, c.collections, c.configsets)
    else if !cleanup then Ran(true, false, c.collections, c.configsets)
    else
      var done := CleanupResult(c.result.value, f, c.collections, c.configsets);
      Ran(true, done.reply.Done?, done.collections, done.configsets)
  }

  // ----- exactly what a run costs -----

  /** The commands that reach a configset that was there before. */
  function PostedOn(r: Request, f: Faults, baseline: Name, collections: map<Name, Name>,
      configsets: map<Name, Configset>, s: Name): seq<string>
  {
    if Uses(r, f, baseline, collections.Values, configsets, s) && r.shadowName !in collections && f.collection.Works?
    then r.commands[..CommandsTaken(r.commands, f, 0).count] else []
  }

  lemma NothingPosted(c: Configset)
    ensures WithCommands(c, []) == c
  {
    assert c.commands + [] == c.commands;
  }

  /** A configset that was there before, once create_shadow has ended. */
  lemma CreatedExactly(
      r: Request, f: Faults, baseline: Name, collections: map<Name, Name>, configsets: map<Name, Configset>, s: Name)
    requires Consistent(collections, configsets) && s in configsets
    requires r.baselineCollection in collections && baseline == collections[r.baselineCollection]
    ensures var held := HeldAfterChoice(r, f, baseline, collections.Values, configsets, s);
            Lookup(CreateResult(r, f, collections, configsets).configsets, s) ==
            if held.None? then None
            else Some(WithCommands(held.value, PostedOn(r, f, baseline, collections, configsets, s)))
  {
    HeldExactly(r, f, baseline, collections.Values, configsets, s);
    UsesExactly(r, f, baseline, collections.Values, configsets, s);
    ChoiceWorksExactly(r, f, baseline, collections.Values, configsets);
    var held := HeldAfterChoice(r, f, baseline, collections.Values, configsets, s);
    if held.Some? {
      NothingPosted(held.value);
    }
  }

  /** Cleaning up removes a configset that was there before: the one under the upload's name, which the manifest
      calls isolated. */
  predicate DropsOld(r: Request, f: Faults, cleanup: bool, baseline: Name, collections: map<Name, Name>,
      configsets: map<Name, Configset>, s: Name)
  {
    && cleanup && s == r.Uploaded() && OwnsUploadName(r, f, baseline, collections.Values, configsets)
    && r.shadowName !in collections && f.collection.Works? && CommandsTaken(r.commands, f, 0).reply.Done?
    && f.dropCollection.Works? && s !in collections.Values && TakesEffect(f.dropConfigset)
  }

  lemma ReturnsExactly(
      r: Request, f: Faults, baseline: Name, collections: map<Name, Name>, configsets: map<Name, Configset>, s: Name)
    requires Consistent(collections, configsets) && s in configsets
    requires r.baselineCollection in collections && baseline == collections[r.baselineCollection]
    ensures var c := CreateResult(r, f, collections, configsets);
            && (c.result.Ok? && c.result.value.isolated && c.result.value.shadowConfigset == s <==>
                && s == r.Uploaded() && OwnsUploadName(r, f, baseline, collections.Values, configsets)
                && r.shadowName !in collections && f.collection.Works? && CommandsTaken(r.commands, f, 0).reply.Done?)
            && (c.result.Ok? ==>
                  && c.result.value.shadowCollection == r.shadowName && r.shadowName !in collections
                  && c.collections == collections[r.shadowName := c.result.value.shadowConfigset])
  {
    UsesExactly(r, f, baseline, collections.Values, configsets, s);
    ChoiceWorksExactly(r, f, baseline, collections.Values, configsets);
  }

  lemma DropsExactly(r: Request, f: Faults, cleanup: bool, baseline: Name, collections: map<Name, Name>,
      configsets: map<Name, Configset>, s: Name)
    requires Consistent(collections, configsets) && s in configsets
    requires r.baselineCollection in collections && baseline == collections[r.baselineCollection]
    ensures Lookup(RunResult(r, f, cleanup, collections, configsets).configsets, s) ==
            if DropsOld(r, f, cleanup, baseline, collections, configsets, s) then None
            else Lookup(CreateResult(r, f, collections, configsets).configsets, s)
  {
    ReturnsExactly(r, f, baseline, collections, configsets, s);
    var c := CreateResult(r, f, collections, configsets);
    if c.result.Ok? {
      assert c.collections - {r.shadowName} == collections;
    }
  }

  /** The run loses or changes a configset s that was there before: its upload replaces it and is removed after
      the promotion, without a clone in its place; or cleaning up removes it; or it ends up with other content,
      by the upload, a clone in its place, or the commands posted on it. */
  predicate Costs(r: Request, f: Faults, cleanup: bool, baseline: Name, collections: map<Name, Name>,
      configsets: map<Name, Configset>, s: Name)
    requires s in configsets && baseline in configsets
  {
    var held := HeldAfterChoice(r, f, baseline, collections.Values, configsets, s);
    || held.None?
    || DropsOld(r, f, cleanup, baseline, collections, configsets, s)
    || WithCommands(held.value, PostedOn(r, f, baseline, collections, configsets, s)) != configsets[s]
  }

  /** Exactly when a run, cleaned up or not and whatever fails, costs an existing configset. */
  lemma RunCostsExactly(r: Request, f: Faults, cleanup: bool, collections: map<Name, Name>,
      configsets: map<Name, Configset>, s: Name)
    requires Consistent(collections, configsets) && s in configsets
    ensures Lookup(RunResult(r, f, cleanup, collections, configsets).configsets, s) != Some(configsets[s]) <==>
            && r.baselineCollection in collections
            && Costs(r, f, cleanup, collections[r.baselineCollection], collections, configsets, s)
  {
    if r.baselineCollection in collections {
      var baseline := collections[r.baselineCollection];
      DropsExactly(r, f, cleanup, baseline, collections, configsets, s);
      CreatedExactly(r, f, baseline, collections, configsets, s);
    }
  }

  lemma SomeTaken(commands: seq<string>, f: Faults)
    ensures CommandsTaken(commands, f, 0).count > 0 <==> commands != [] && TakesEffect(f.schema(0))
  {
  }

  /** Only the configset under the upload's name and the baseline's own are ever at risk; the baseline's, under
      another name, exactly when the shadow shares it, its collection is created, and a schema command takes
      effect. */
  lemma BaselineChangesExactly(r: Request, f: Faults, cleanup: bool, collections: map<Name, Name>,
      configsets: map<Name, Configset>, s: Name)
    requires Consistent(collections, configsets) && s in configsets && s != r.Uploaded()
    ensures Lookup(RunResult(r, f, cleanup, collections, configsets).configsets, s) != Some(configsets[s]) <==>
            && r.baselineCollection in collections && s == collections[r.baselineCollection]
            && SharesBaseline(r, f, s, collections.Values, configsets)
            && r.shadowName !in collections && f.collection.Works?
            && r.commands != [] && TakesEffect(f.schema(0))
  {
    RunCostsExactly(r, f, cleanup, collections, configsets, s);
    SomeTaken(r.commands, f);
    NothingPosted(configsets[s]);
    if r.baselineCollection in collections {
      var posted := PostedOn(r, f, collections[r.baselineCollection], collections, configsets, s);
      assert |(configsets[s].commands + posted)| == |configsets[s].commands| + |posted|;
    }
  }

  /** Under a name in use even an upload of the very content that is there costs the configset: nothing fails, the
      manifest calls it isolated, and cleaning up removes it. */
  lemma CleanupTakesOldConfigset(r: Request, f: Faults, collections: map<Name, Name>, configsets: map<Name, Configset>)
    requires Consistent(collections, configsets) && NoFaults(f)
    requires r.baselineCollection in collections && r.shadowName !in collections
    requires r.hasUpdates && r.workspace.Ok? && !r.promote
    requires r.Uploaded() in configsets && r.Uploaded() !in collections.Values
    ensures r.Uploaded() !in RunResult(r, f, true, collections, configsets).configsets
  {
    NoCommandFails(r.commands, f, 0);
    DropsExactly(r, f, true, collections[r.baselineCollection], collections, configsets, r.Uploaded());
  }

  /** Which of the two deletions take effect, and when both work. */
  ghost predicate CleanupExplained(m: Manifest, f: Faults, collections: map<Name, Name>,
      configsets: map<Name, Configset>, reply: Reply, collections': map<Name, Name>, configsets': map<Name, Configset>)
  {
    var found := m.shadowCollection in collections;
    var tried := found && f.dropCollection.Works? && m.isolated;
    var unused := m.shadowConfigset in configsets && m.shadowConfigset !in collections'.Values;
    && collections' ==
       (if found && TakesEffect(f.dropCollection) then collections - {m.shadowCollection} else collections)
    && configsets' ==
       (if tried && unused && TakesEffect(f.dropConfigset) then configsets - {m.shadowConfigset} else configsets)
    && (reply.Done? <==>
        found && f.dropCollection.Works? && (m.isolated ==> unused && f.dropConfigset.Works?))
    && (reply.Failed? ==>
          reply.error == if !found then RequestError
                         else if f.dropCollection.Raises? then f.dropCollection.error
                         else if !unused then RequestError else f.dropConfigset.error)
  }

  /** cleanup_shadow: the collection first, then its configset if it has one of its own. */
  method CleanupShadow(cluster: Cluster, m: Manifest, f: Faults) returns (reply: Reply)
    requires cluster.Valid()
    modifies cluster
    ensures cluster.Valid()
    ensures Cleaned(reply, cluster.collections, cluster.configsets) ==
            CleanupResult(m, f, old(cluster.collections), old(cluster.configsets))
    ensures CleanupExplained(m, f, old(cluster.collections), old(cluster.configsets), reply, cluster.collections,
              cluster.configsets)
    ensures forall c :: c in old(cluster.collections) && c != m.shadowCollection ==>
              c in cluster.collections && cluster.collections[c] == old(cluster.collections)[c]
    ensures cluster.collections.Keys <= old(cluster.collections).Keys
    ensures cluster.configsets == old(cluster.configsets)
            || (m.isolated && m.shadowCollection !in cluster.collections
                && cluster.configsets == old(cluster.configsets) - {m.shadowConfigset})
    ensures reply.Done? ==>
              && cluster.collections == old(cluster.collections) - {m.shadowCollection}
              && (m.isolated ==> cluster.configsets == old(cluster.configsets) - {m.shadowConfigset})
    ensures NoFaults(f) && m.shadowCollection in old(cluster.collections)
            && (m.isolated ==> m.shadowConfigset in old(cluster.configsets)
                               && forall c :: c in old(cluster.collections) && c != m.shadowCollection ==>
                                    old(cluster.collections)[c] != m.shadowConfigset) ==>
              reply.Done?
  {
    reply := cluster.DeleteCollection(m.shadowCollection, f.dropCollection);
    if reply.Failed? || !m.isolated {
      return;
    }
    reply := cluster.DeleteConfigset(m.shadowConfigset, f.dropConfigset);
  }

  lemma RunKeepsCollections(
      r: Request, f: Faults, cleanup: bool, collections: map<Name, Name>, configsets: map<Name, Configset>)
    requires Consistent(collections, configsets)
    ensures var e := RunResult(r, f, cleanup, collections, configsets);
            && KeepsCollections(collections, e.collections)
            && (forall c :: c in e.collections ==> c in collections || c == r.shadowName)
            && (e.deleted ==> e.collections == collections)
  {
    CreateSafe(r, f, collections, configsets);
    CreateTruthful(r, f, collections, configsets);
    var c := CreateResult(r, f, collections, configsets);
    if c.result.Ok? {
      assert c.collections - {r.shadowName} == collections;
    }
  }

  /** Whatever fails, a run with an unused upload name loses nothing that was there before, except perhaps for the
      content of the baseline's own configset. */
  lemma RunKeepsConfigsets(
      r: Request, f: Faults, cleanup: bool, collections: map<Name, Name>, configsets: map<Name, Configset>)
    requires Consistent(collections, configsets)
    ensures var e := RunResult(r, f, cleanup, collections, configsets);
            && AddsOnlyShadow(r, configsets, e.configsets)
            && (UploadIsSafe(r, configsets) ==> KeepsConfigsets(configsets, e.configsets, Exposed(r, collections)))
  {
    CreateSafe(r, f, collections, configsets);
    CreateTruthful(r, f, collections, configsets);
  }

  /** If nothing fails and the names are unused, cleaning up restores the cluster. */
  lemma RunRestores(
      r: Request, f: Faults, cleanup: bool, collections: map<Name, Name>, configsets: map<Name, Configset>)
    requires Consistent(collections, configsets) && NoFaults(f) && RoomForConfigset(r, configsets)
    requires r.baselineCollection in collections && r.shadowName !in collections
    ensures var e := RunResult(r, f, cleanup, collections, configsets);
            && e.created && e.deleted == cleanup
            && (cleanup ==> e.collections == collections && e.configsets == configsets)
  {
    CreateTruthful(r, f, collections, configsets);
    CreateWithoutFaults(r, f, collections, configsets);
    var c := CreateResult(r, f, collections, configsets);
    assert c.collections - {r.shadowName} == collections;
    assert c.configsets - {c.result.value.shadowConfigset} == configsets;
  }

  // ----- what a run leaves behind -----

  /** What create_shadow adds under a name that was unused: what the choice adds, with the commands if it is the
      shadow's own. */
  ghost function AddedByCreate(r: Request, f: Faults, baseline: Name, collections: map<Name, Name>,
      configsets: map<Name, Configset>, s: Name): Option<Configset>
    requires baseline in configsets
  {
    var added := AddedByChoice(r, f, baseline, collections.Values, configsets, s);
    var posted := s == ChosenName(r, f, baseline, collections.Values, configsets) && f.collection.Works?
                  && CreatesCollection(r, f, baseline, collections, configsets);
    if added.None? then None
    else Some(WithCommands(added.value, if posted then r.commands[..CommandsTaken(r.commands, f, 0).count] else []))
  }

  lemma AddedByCreateExactly(
      r: Request, f: Faults, baseline: Name, collections: map<Name, Name>, configsets: map<Name, Configset>, s: Name)
    requires Consistent(collections, configsets) && s !in configsets
    requires r.baselineCollection in collections && baseline == collections[r.baselineCollection]
    ensures Lookup(CreateResult(r, f, collections, configsets).configsets, s) ==
            AddedByCreate(r, f, baseline, collections, configsets, s)
  {
    AddedExactly(r, f, baseline, collections.Values, configsets, s);
    ChoiceExactly(r, f, baseline, collections.Values, configsets);
    ChoiceWorksExactly(r, f, baseline, collections.Values, configsets);
    var added := AddedByChoice(r, f, baseline, collections.Values, configsets, s);
    if added.Some? {
      NothingPosted(added.value);
    }
  }

  /** Cleaning up reaches the shadow's own configset. */
  ghost predicate DropsOwn(r: Request, f: Faults, cleanup: bool, baseline: Name, collections: map<Name, Name>,
      configsets: map<Name, Configset>)
  {
    && cleanup && CreateWorks(r, f, baseline, collections, configsets) && f.dropCollection.Works?
    && !SharesBaseline(r, f, baseline, collections.Values, configsets)
    && ChosenName(r, f, baseline, collections.Values, configsets) !in collections.Values
  }

  /** Exactly what a run adds to the configsets and leaves there, whatever fails. */
  lemma RunLeavesExactly(r: Request, f: Faults, cleanup: bool, collections: map<Name, Name>,
      configsets: map<Name, Configset>, s: Name)
    requires Consistent(collections, configsets) && s !in configsets
    ensures Lookup(RunResult(r, f, cleanup, collections, configsets).configsets, s) ==
            if r.baselineCollection !in collections then None
            else
              var baseline := collections[r.baselineCollection];
              if s == ChosenName(r, f, baseline, collections.Values, configsets)
                 && DropsOwn(r, f, cleanup, baseline, collections, configsets) && TakesEffect(f.dropConfigset)
              then None
              else AddedByCreate(r, f, baseline, collections, configsets, s)
  {
    CreateExactly(r, f, collections, configsets);
    if r.baselineCollection in collections {
      AddedByCreateExactly(r, f, collections[r.baselineCollection], collections, configsets, s);
      CreateTruthful(r, f, collections, configsets);
      var c := CreateResult(r, f, collections, configsets);
      if c.result.Ok? {
        assert c.collections - {r.shadowName} == collections;
      }
    }
  }

  /** When a run creates its shadow, and when it then removes all of it. */
  ghost predicate RunExplained(r: Request, f: Faults, cleanup: bool, collections: map<Name, Name>,
      configsets: map<Name, Configset>, created: bool, deleted: bool)
  {
    if r.baselineCollection !in collections then !created && !deleted
    else
      var baseline := collections[r.baselineCollection];
      && (created <==> CreateWorks(r, f, baseline, collections, configsets))
      && (deleted <==>
          && cleanup && created && f.dropCollection.Works?
          && (SharesBaseline(r, f, baseline, collections.Values, configsets)
              || (DropsOwn(r, f, cleanup, baseline, collections, configsets) && f.dropConfigset.Works?)))
  }

  lemma RunExactly(r: Request, f: Faults, cleanup: bool, collections: map<Name, Name>, configsets: map<Name, Configset>)
    requires Consistent(collections, configsets)
    ensures var e := RunResult(r, f, cleanup, collections, configsets);
            RunExplained(r, f, cleanup, collections, configsets, e.created, e.deleted)
  {
    CreateExactly(r, f, collections, configsets);
    CreateTruthful(r, f, collections, configsets);
    var c := CreateResult(r, f, collections, configsets);
    if c.result.Ok? {
      assert c.collections - {r.shadowName} == collections;
      ShadowConfigsetExists(r, f, collections, configsets);
    }
  }

  lemma ShadowConfigsetExists(r: Request, f: Faults, collections: map<Name, Name>, configsets: map<Name, Configset>)
    requires Consistent(collections, configsets) && CreateResult(r, f, collections, configsets).result.Ok?
    ensures var c := CreateResult(r, f, collections, configsets); c.result.value.shadowConfigset in c.configsets
  {
  }

  /** The shadow's part of one run, call by call: create, then clean up if asked to and if create returned. */
  method RunCalls(cluster: Cluster, r: Request, cleanup: bool, f: Faults) returns (created: bool, deleted: bool)
    requires cluster.Valid()
    modifies cluster
    ensures cluster.Valid()
    ensures Ran(created, deleted, cluster.collections, cluster.configsets) ==
            RunResult(r, f, cleanup, old(cluster.collections), old(cluster.configsets))
  {
    created, deleted := false, false;
    var result := IssueCalls(cluster, r, f);
    if result.Ok? {
      created := true;
      if cleanup {
        var reply := CleanupShadow(cluster, result.value, f);
        deleted := reply.Done?;
      }
    }
  }

  /** One run, and what its callers may rely on. */
  method Run(cluster: Cluster, r: Request, cleanup: bool, f: Faults) returns (created: bool, deleted: bool)
    requires cluster.Valid()
    modifies cluster
    ensures cluster.Valid()
    ensures Ran(created, deleted, cluster.collections, cluster.configsets) ==
            RunResult(r, f, cleanup, old(cluster.collections), old(cluster.configsets))
    ensures RunExplained(r, f, cleanup, old(cluster.collections), old(cluster.configsets), created, deleted)
    ensures KeepsCollections(old(cluster.collections), cluster.collections)
    ensures UploadIsSafe(r, old(cluster.configsets)) ==>
              KeepsConfigsets(old(cluster.configsets), cluster.configsets, Exposed(r, old(cluster.collections)))
    ensures forall c :: c in cluster.collections ==> c in old(cluster.collections) || c == r.shadowName
    ensures AddsOnlyShadow(r, old(cluster.configsets), cluster.configsets)
    ensures deleted ==> cluster.collections == old(cluster.collections)
    ensures NoFaults(f) && r.baselineCollection in old(cluster.collections) && r.shadowName !in old(cluster.collections)
            && RoomForConfigset(r, old(cluster.configsets)) ==>
              && created && deleted == cleanup
              && (cleanup ==>
                    cluster.collections == old(cluster.collections) && cluster.configsets == old(cluster.configsets))
  {
    RunExactly(r, f, cleanup, cluster.collections, cluster.configsets);
    RunKeepsCollections(r, f, cleanup, cluster.collections, cluster.configsets);
    RunKeepsConfigsets(r, f, cleanup, cluster.collections, cluster.configsets);
    if NoFaults(f) && r.baselineCollection in cluster.collections && r.shadowName !in cluster.collections
       && RoomForConfigset(r, cluster.configsets) {
      RunRestores(r, f, cleanup, cluster.collections, cluster.configsets);
    }
    created, deleted := RunCalls(cluster, r, cleanup, f);
  }

  // ----- the shadow's name -----

  datatype Piece = Literal(text: string) | Collection | Timestamp

  function RenderPiece(p: Piece, collection: string, ts: string): string {
    match p
    case Literal(text) => text
    case Collection => collection
    case Timestamp => ts
  }

  /** The name template, filled in. */
  function RenderShadowName(template: seq<Piece>, collection: string, ts: string): string {
    if template == [] then ""
    else RenderPiece(template[0], collection, ts) + RenderShadowName(template[1..], collection, ts)
  }

  /** Literal text stays as it is, and the two placeholders give way to the collection and the timestamp. */
  lemma {:induction false} NameParts(template: seq<Piece>, p: Piece, collection: string, ts: string)
    ensures RenderShadowName(template + [p], collection, ts) ==
            RenderShadowName(template, collection, ts)
            + if p.Literal? then p.text else if p == Timestamp then ts else collection
    ensures RenderShadowName([], collection, ts) == ""
  {
    if template == [] {
      assert template + [p] == [p];
    } else {
      NameParts(template[1..], p, collection, ts);
      assert (template + [p])[1..] == template[1..] + [p];
      AppendRegroups(RenderPiece(template[0], collection, ts), RenderShadowName(template[1..], collection, ts),
        RenderPiece(p, collection, ts));
    }
  }

  lemma SamePrefixLength(a: string, b: string, x: string, y: string)
    requires |a| == |b|
    ensures a + x == b + y <==> a == b && x == y
  {
    if a + x == b + y {
      assert a == (a + x)[..|a|] && b == (b + y)[..|b|];
      assert x == (a + x)[|a|..] && y == (b + y)[|b|..];
    }
  }

  /** Runs at different seconds get different names exactly when the template mentions the timestamp. */
  lemma {:induction false} NamesDiffer(template: seq<Piece>, collection: string, ts: string, ts': string)
    requires |ts| == |ts'|
    ensures RenderShadowName(template, collection, ts) == RenderShadowName(template, collection, ts') <==>
            ts == ts' || Timestamp !in template
  {
    if template != [] {
      NamesDiffer(template[1..], collection, ts, ts');
      SamePrefixLength(
        RenderPiece(template[0], collection, ts), RenderPiece(template[0], collection, ts'),
        RenderShadowName(template[1..], collection, ts), RenderShadowName(template[1..], collection, ts'));
      assert Timestamp in template <==> template[0] == Timestamp || Timestamp in template[1..];
    }
  }
}
