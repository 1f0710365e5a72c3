/** Reloadable properties: sources shared or cloned, debounced commits, and the sequence of
    generations they publish. */
module Properties {
  import opened Sequences
  import opened Values
  import opened ScopedKeys

  /** TOMLPropertiesSource */
  class Source {
    var value: Value

    constructor (value: Value)
      ensures this.value == value
    {
      this.value := value;
    }

    /** serialize: open the scope in place, then write the object through the reference. */
    method Serialize(x: Object, key: string)
      modifies this
      ensures value == Stored(old(value), Segments(key), x)
    {
      var above, focus := OpenScope(value, key);
      value := Plug(above, Write(focus, x));
    }

    method Deserialize(key: string) returns (found: Option<Value>)
      ensures found == LookUp(value, Segments(key))
    {
      found := AdvanceScope(value, key);
    }

    method Clone() returns (copy: Source)
      ensures fresh(copy) && copy.value == value
    {
      copy := new Source(value);
    }
  }

  /** ReloablePropertiesGeneration: a numbered view of a source and of the one before. */
  class Generation {
    const number: nat
    const data: Source
    const previous: Source
    /** Created by commit from a clone, not by reading the file. */
    ghost const cloned: bool
    /** The source that pushes went to when it was published. */
    ghost const shared: Source

    constructor (data: Source, previous: Source, number: nat, ghost cloned: bool, ghost shared: Source)
      ensures this.data == data && this.previous == previous && this.number == number
      ensures this.cloned == cloned && this.shared == shared
    {
      this.data := data;
      this.previous := previous;
      this.number := number;
      this.cloned := cloned;
      this.shared := shared;
    }

    method Get(key: string) returns (found: Option<Value>)
      ensures found == LookUp(data.value, Segments(key))
    {
      found := data.Deserialize(key);
    }

    /** changed: the two sources differ at the key. */
    method Changed(key: string) returns (yes: bool)
      ensures yes <==> LookUp(data.value, Segments(key)) != LookUp(previous.value, Segments(key))
    {
      var left := data.Deserialize(key);
      var right := previous.Deserialize(key);
      yes := left != right;
    }
  }

  // ----- Sequences of generations -----

  /** The source that a commit behind this generation is compared with. */
  ghost function Before(g: Generation): Source {
    if g.cloned then g.data else g.previous
  }

  /** What a generation shows, and what it is compared with. */
  ghost predicate LinkOk(h: seq<Generation>, i: nat)
    requires i < |h|
  {
    && h[i].number == i && h[i].data != h[i].previous
    && (if h[i].cloned then i > 0 && h[i].previous == Before(h[i - 1]) && h[i].shared == h[i - 1].shared
                            && h[i].data != h[i].shared
        else h[i].shared == h[i].data && (i > 0 ==> h[i].previous == h[i - 1].shared))
  }

  ghost predicate Linked(h: seq<Generation>) {
    forall i :: 0 <= i < |h| ==> LinkOk(h, i)
  }

  /** A generation is compared with the data of its predecessor exactly if both were committed
      or both were read from the file. A commit behind a reload is compared with what the
      reload replaced, a reload behind a commit with the source that was being written. */
  lemma ComparedWithPredecessorIff(h: seq<Generation>, i: nat)
    requires Linked(h) && 0 < i < |h|
    ensures h[i].previous == h[i - 1].data <==> h[i].cloned == h[i - 1].cloned
    ensures h[i].cloned && !h[i - 1].cloned ==> h[i].previous == h[i - 1].previous
    ensures !h[i].cloned && h[i - 1].cloned ==> h[i].previous == h[i - 1].shared
  {
    assert LinkOk(h, i) && LinkOk(h, i - 1);
  }

  lemma LinkedSnoc(h: seq<Generation>, g: Generation)
    requires Linked(h) && LinkOk(h + [g], |h|)
    ensures Linked(h + [g])
  {
    var r := h + [g];
    forall i | 0 <= i < |r| ensures LinkOk(r, i) {
      if i < |h| {
        assert LinkOk(h, i);
      }
    }
  }

  /** No generation shows the source, or is compared with it. */
  ghost predicate Apart(gs: seq<Generation>, s: Source?) {
    forall i :: 0 <= i < |gs| ==> gs[i].data != s && gs[i].previous != s
  }

  /** What opening the config file finds. */
  datatype File = Missing | Unreadable | Contents(entries: map<string, Value>) {
    function Parsed(): Value {
      if Contents? then Table(entries) else Empty
    }
  }

  /** What happens to the service from outside. */
  datatype Op = Start(file: File) | Push(x: Object, key: string) | DebounceFires | FileChanged(file: File) | Stop

  class ReloadableProperties {
    const writeBack: bool
    var generation: nat
    var changes: nat
    var ignoreNextFileChange: bool
    var previous: Source?
    var current: Source?
    var epoch: Generation?
    /** Scheduled calls of commit. */
    var pending: nat
    /** The generations since the last start, oldest first, and those of earlier starts. */
    ghost var history: seq<Generation>
    ghost var archive: seq<Generation>
    /** The latest generation of history that was read from the file. */
    ghost var reloadAt: nat

    ghost function Published(): seq<Generation>
      reads this
    {
      archive + history
    }

    /** Only the latest generation read from the file shares the current source. */
    ghost predicate Session()
      reads this
    {
      && current != null && generation == |history| && Linked(history) && Apart(archive, current)
      && (forall i :: 0 <= i < |history| ==> history[i].previous != current)
      && (forall i :: 0 <= i < |history| && i != reloadAt ==> history[i].data != current)
      && (history != [] ==>
            && reloadAt < |history| && history[reloadAt].data == current && !history[reloadAt].cloned
            && history[|history| - 1].shared == current)
    }

    ghost predicate Running()
      reads this
    {
      && Session() && history != []
      && epoch == history[|history| - 1] && previous == Before(epoch)
      && pending == (if changes > 0 then 1 else 0)
    }

    /** Since a commit, only pushes have written to the current source. */
    ghost predicate Synced()
      reads this, current, if epoch != null then {epoch.data} else {}
    {
      epoch != null && current != null && epoch.cloned && changes == 0 ==> current.value == epoch.data.value
    }

    /** Not started, stopped, or left behind by a start that failed. */
    ghost predicate Idle()
      reads this
    {
      && epoch == null && previous == null && history == [] && changes == 0 && pending == 0
      && Apart(archive, current)
    }

    constructor (writeBack: bool)
      ensures Idle() && current == null && archive == [] && this.writeBack == writeBack && !ignoreNextFileChange
    {
      this.writeBack := writeBack;
      generation, changes, pending, ignoreNextFileChange := 0, 0, 0, false;
      previous, current, epoch := null, null, null;
      history, archive, reloadAt := [], [], 0;
    }

    /** createGeneration: take the next number. */
    method CreateGeneration(data: Source, before: Source, ghost cloned: bool, ghost shared: Source) returns (g: Generation)
      requires generation == |history| && Linked(history) && data != before
      requires if cloned then history != [] && before == Before(history[|history| - 1])
                              && shared == history[|history| - 1].shared && data != shared
               else shared == data && (history != [] ==> before == history[|history| - 1].shared)
      modifies this`generation, this`history
      ensures fresh(g) && g.data == data && g.previous == before && g.cloned == cloned && g.shared == shared
      ensures g.number == old(generation) && generation == old(generation) + 1
      ensures history == old(history) + [g] && Linked(history)
    {
      g := new Generation(data, before, generation, cloned, shared);
      LinkedSnoc(history, g);
      generation := generation + 1;
      history := history + [g];
    }

    /** readFromFile: a new source becomes current and is published as it is, unless the file
        exists and cannot be opened. */
    method ReadFromFile(file: File) returns (ok: bool)
      requires Session()
      modifies this`current, this`previous, this`generation, this`history, this`epoch, this`reloadAt
      ensures ok <==> file != Unreadable
      ensures !ok ==> current == old(current) && previous == old(previous) && history == old(history)
                      && epoch == old(epoch) && generation == old(generation) && reloadAt == old(reloadAt)
      ensures ok ==>
        && Session() && fresh(current) && current.value == file.Parsed() && previous == old(current)
        && epoch != null && fresh(epoch) && history == old(history) + [epoch]
        && !epoch.cloned && epoch.data == current && epoch.previous == old(current)
    {
      if file == Unreadable {
        return false;
      }
      var source := new Source(file.Parsed());
      ghost var n := |history|;
      previous := current;
      current := source;
      epoch := CreateGeneration(source, previous, false, source);
      reloadAt := n;
      ok := true;
    }

    /** onStart: a start that fails leaves its empty source behind. */
    method Start(file: File) returns (ok: bool)
      requires Idle()
      modifies this
      ensures ok <==> file != Unreadable
      ensures fresh(current) && archive == old(archive)
      ensures ok ==> Running() && Synced() && |history| == 1 && changes == 0 && epoch.number == 0
                     && current.value == file.Parsed() && epoch.previous.value == Empty
      ensures !ok ==> Idle()
      ensures ignoreNextFileChange == old(ignoreNextFileChange)
    {
      generation := 0;
      reloadAt := 0;
      current := new Source(Empty);
      ok := ReadFromFile(file);
      if ok {
        assert LinkOk(history, 0);
      } else {
        epoch := null;
      }
    }

    /** push: write into the current source; the first write schedules a commit. */
    method Push(x: Object, key: string)
      requires Running() && Synced()
      modifies this`changes, this`pending, current
      ensures Running() && Synced() && changes == old(changes) + 1 && pending == 1
      ensures current.value == Stored(old(current.value), Segments(key), x)
    {
      current.Serialize(x, key);
      if changes == 0 {
        pending := pending + 1;
      }
      changes := changes + 1;
    }

    /** commit, run by the debounce timer: publish a clone of the current source. Behind a reload
        the predecessor shows the current source itself, so it holds the same values. */
    method Commit()
      requires Running() && pending > 0
      modifies this`changes, this`pending, this`ignoreNextFileChange, this`previous, this`epoch,
               this`generation, this`history
      ensures Running() && Synced() && changes == 0 && pending == 0 && old(changes) > 0
      ensures history == old(history) + [epoch] && fresh(epoch)
      ensures epoch.cloned && fresh(epoch.data) && epoch.data.value == current.value
      ensures epoch.previous == old(previous)
      ensures !old(epoch).cloned ==> old(epoch).data == current
      ensures ignoreNextFileChange == (writeBack || old(ignoreNextFileChange))
    {
      assert LinkOk(history, |history| - 1);
      pending := pending - 1;
      changes := 0;
      if writeBack {
        ignoreNextFileChange := true;
      }
      PublishClone();
    }

    method PublishClone()
      requires Running() && changes == 0
      modifies this`previous, this`epoch, this`generation, this`history
      ensures Running() && history == old(history) + [epoch] && fresh(epoch)
      ensures epoch.cloned && fresh(epoch.data) && epoch.data.value == current.value
      ensures epoch.previous == old(previous)
    {
      var persistent := current.Clone();
      epoch := CreateGeneration(persistent, previous, true, current);
      previous := persistent;
    }

    /** onFileChanged. A reload behind a commit is compared with the source that was current. It
        holds what was committed if nothing was pushed since, and in general exactly if the
        pushes left it equal. */
    method OnFileChanged(file: File)
      requires Running() && Synced()
      modifies this`current, this`previous, this`generation, this`history, this`epoch, this`reloadAt,
               this`ignoreNextFileChange
      ensures Running() && Synced() && !ignoreNextFileChange
      ensures if old(ignoreNextFileChange) || file == Unreadable
              then current == old(current) && epoch == old(epoch) && history == old(history)
              else fresh(current) && current.value == file.Parsed() && history == old(history) + [epoch]
                   && fresh(epoch) && !epoch.cloned && epoch.data == current && epoch.previous == old(current)
      ensures epoch != old(epoch) && old(epoch).cloned ==>
                (epoch.previous.value == old(epoch).data.value <==> old(current.value) == old(epoch.data.value))
      ensures epoch != old(epoch) && old(epoch).cloned && old(changes) == 0 ==>
                epoch.previous.value == old(epoch).data.value
    {
      if ignoreNextFileChange {
        ignoreNextFileChange := false;
      } else {
        var ok := ReadFromFile(file);
      }
    }

    method Stop()
      requires Running()
      modifies this`changes, this`pending, this`ignoreNextFileChange, this`previous, this`current, this`epoch,
               this`history, this`archive
      ensures Idle() && current == null && !ignoreNextFileChange
      ensures archive == old(Published())
    {
      epoch := null;
      changes, pending := 0, 0;
      ignoreNextFileChange := false;
      current, previous := null, null;
      archive := archive + history;
      history := [];
    }

    /** One outside event. The timer fires only when a commit is scheduled; a service that does
        not run can only be started. */
    method Handle(op: Op)
      requires (Running() && Synced()) || Idle()
      modifies this, current
      ensures (Running() && Synced()) || Idle()
      ensures current == old(current) || current == null || fresh(current)
      ensures old(Published()) <= Published()
      ensures forall i :: 0 <= i < |old(Published())| ==>
                old(Published()[i]).previous.value == old(Published()[i].previous.value)
      ensures forall i :: 0 <= i < |old(Published())| && old(Published()[i]).data != old(current) ==>
                old(Published()[i]).data.value == old(Published()[i].data.value)
    {
      if epoch == null {
        if op.Start? {
          var ok := Start(op.file);
        }
      } else {
        match op
        case Start(_) =>
        case Push(x, key) => Push(x, key);
        case DebounceFires =>
          if pending > 0 {
            Commit();
          }
        case FileChanged(file) => OnFileChanged(file);
        case Stop => Stop();
      }
    }

    /** Over every run, restarts included: nothing that was published is withdrawn, and neither
        side of a comparison ever changes, except the data of the generation that shares the
        current source, which goes on changing until the next reload or stop. */
    method Run(ops: seq<Op>)
      requires (Running() && Synced()) || Idle()
      modifies this, current
      ensures (Running() && Synced()) || Idle()
      ensures old(Published()) <= Published()
      ensures forall i :: 0 <= i < |old(Published())| ==>
                old(Published()[i]).previous.value == old(Published()[i].previous.value)
      ensures forall i :: 0 <= i < |old(Published())| && old(Published()[i]).data != old(current) ==>
                old(Published()[i]).data.value == old(Published()[i].data.value)
    {
      for k := 0 to |ops|
        invariant (Running() && Synced()) || Idle()
        invariant current == old(current) || current == null || fresh(current)
        invariant old(Published()) <= Published()
        invariant forall i :: 0 <= i < |old(Published())| ==>
                    old(Published()[i]).previous.value == old(Published()[i].previous.value)
        invariant forall i :: 0 <= i < |old(Published())| && old(Published()[i]).data != old(current) ==>
                    old(Published()[i]).data.value == old(Published()[i].data.value)
      {
        Handle(ops[k]);
      }
    }
  }

  // ----- Inputs on which `changed` does not compare with the predecessor -----

  /** {key: text} */
  function Single(key: string, text: string): map<string, Object> {
    map[key := Primitive(text)]
  }

  lemma OneSegment(key: string)
    requires Proper([key])
    ensures Segments(key) == [key] && Segments("") == []
  {
    SegmentsOfDotted([key]);
    SegmentsOfDotted([]);
  }

  lemma SingleReadsBack(v: Value, key: string, text: string)
    ensures LookUp(Stored(v, [], Fields(Single(key, text))), [key]) == Some(Scalar(text))
  {
    var x := Fields(Single(key, text));
    assert FieldAt(x, [key]) == Some(Primitive(text)) by {
      assert FieldAt(Primitive(text), []) == Some(Primitive(text));
    }
    StoredReadsBack(v, [], x, [key]);
    assert [] + [key] == [key];
  }

  /** A commit behind a reload: the file holds `a`, then `b` is pushed. The commit reports `a`
      as changed, although it has the value that the generation before it shows. */
  method CommitBehindReload() returns (reported: bool, differs: bool)
    ensures reported && !differs
  {
    var p := new ReloadableProperties(false);
    var ok := p.Start(Contents(map["a" := Scalar("1")]));
    var first := p.epoch;
    OneSegment("a");
    p.Push(Fields(Single("b", "2")), "");
    p.Commit();
    reported := p.epoch.Changed("a");
    var before := first.Get("a");
    var after := p.epoch.Get("a");
    differs := before != after;
  }

  /** Start without a file, and commit one value. */
  method CommitOne(key: string, text: string) returns (p: ReloadableProperties)
    requires Proper([key])
    ensures fresh(p) && p.Running() && p.Synced() && fresh(p.current) && p.epoch.cloned && !p.ignoreNextFileChange
    ensures LookUp(p.epoch.data.value, [key]) == Some(Scalar(text)) && p.epoch.data != p.current
  {
    p := new ReloadableProperties(false);
    var ok := p.Start(Missing);
    OneSegment(key);
    SingleReadsBack(Empty, key, text);
    p.Push(Fields(Single(key, text)), "");
    p.Commit();
  }

  /** A reload behind a commit: `a` is committed with one value and pushed with another, which
      the file holds too. The reload reports nothing, although the committed value differs. */
  method ReloadBehindCommit() returns (reported: bool, differs: bool)
    ensures !reported && differs
  {
    var p := CommitOne("a", "1");
    var committed := p.epoch;
    OneSegment("a");
    SingleReadsBack(p.current.value, "a", "2");
    p.Push(Fields(Single("a", "2")), "");
    p.OnFileChanged(Contents(map["a" := Scalar("2")]));
    reported := p.epoch.Changed("a");
    var before := committed.Get("a");
    var after := p.epoch.Get("a");
    differs := before != after;
  }
}
