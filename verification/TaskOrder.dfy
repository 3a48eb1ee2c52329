/** Task ordering by fractional positions (internal/api/tasks.go, internal/db/tasks.go).
    Positions are real numbers here. */
module TaskOrder {
  import opened Outcomes

  datatype Task = Task(project: string, title: string, status: string, position: real)

  /** The tasks table; the id is the primary key. */
  type Table = map<string, Task>

  /** Below this gap a list of positions counts as exhausted. */
  const MIN_GAP := 0.001

  predicate In(s: Table, project: string, id: string) {
    id in s && s[id].project == project
  }

  ghost predicate Apart(x: real, y: real) {
    x - y >= MIN_GAP || y - x >= MIN_GAP
  }

  /** Any two tasks of the project are far enough apart. */
  ghost predicate Spaced(s: Table, project: string) {
    forall a, b :: In(s, project, a) && In(s, project, b) && a != b ==> Apart(s[a].position, s[b].position)
  }

  /** The project's ids by position; ties may come in any order. */
  ghost predicate IsListing(order: seq<string>, s: Table, project: string) {
    && Sorted(order, s)
    && (forall id :: id in order <==> In(s, project, id))
  }

  ghost predicate Sorted(order: seq<string>, s: Table) {
    && (forall i :: 0 <= i < |order| ==> order[i] in s)
    && (forall i, j :: 0 <= i < j < |order| ==>
          order[i] != order[j] && s[order[i]].position <= s[order[j]].position)
  }

  /** The listed tasks moved to 1, 2, 3 and so on. */
  ghost function Renumbered(s: Table, order: seq<string>): Table {
    map id | id in s ::
      if id in order then s[id].(position := (IndexOf(order, id) + 1) as real) else s[id]
  }

  function IndexOf(order: seq<string>, id: string): (i: nat)
    requires id in order
    ensures i < |order| && order[i] == id && id !in order[..i]
  {
    if order[0] == id then 0
    else
      assert id in order[1..];
      var k := IndexOf(order[1..], id);
      assert order[..k + 1] == [order[0]] + order[1..][..k];
      k + 1
  }

  function Patched(t: Task, title: Option<string>, status: Option<string>, position: Option<real>): Task {
    Task(t.project, if title.Some? then title.value else t.title, if status.Some? then status.value else t.status,
         if position.Some? then position.value else t.position)
  }

  function Trimmed(trim: string -> string, title: Option<string>): Option<string> {
    if title.Some? then Some(trim(title.value)) else None
  }

  /** The project has the task, and moving it there brings two tasks too close. */
  ghost predicate Crowds(s: Table, project: string, id: string, position: Option<real>) {
    In(s, project, id) && position.Some? && !Spaced(s[id := s[id].(position := position.value)], project)
  }

  /** Spacing is a matter of positions alone. */
  lemma CrowdedByPosition(s: Table, project: string, id: string, t: Task)
    requires In(s, project, id) && t.project == project
    ensures Spaced(s[id := t], project) == Spaced(s[id := s[id].(position := t.position)], project)
  {
    var x, y := s[id := t], s[id := s[id].(position := t.position)];
    assert forall k :: In(x, project, k) == In(y, project, k);
    assert forall k :: In(x, project, k) ==> x[k].position == y[k].position;
  }

  predicate ValidStatus(status: string) {
    status in ["todo", "in-progress", "done"]
  }

  datatype Request =
    | Create(project: string, id: string, title: string, status: string)
    | Update(project: string, id: string, newTitle: Option<string>, newStatus: Option<string>, newPosition: Option<real>)
    | Delete(project: string, id: string)

  /** `position` is where the next new task of the project goes. */
  ghost predicate IsNextPosition(s: Table, project: string, position: real) {
    && (forall id :: In(s, project, id) ==> s[id].position + 1.0 <= position)
    && if exists id :: In(s, project, id) then exists id :: In(s, project, id) && position == s[id].position + 1.0
       else position == 1.0
  }

  /** What a request that passes validation does to the table. */
  ghost predicate Step(r: Request, s: Table, s': Table) {
    match r
    case Create(project, id, title, status) =>
      exists position ::
        && IsNextPosition(s, project, position)
        && s' == if id in s then s else s[id := Task(project, title, status, position)]
    case Update(project, id, title, status, position) =>
      if !In(s, project, id) then s' == s
      else
        var patched := s[id := Patched(s[id], title, status, position)];
        if position.None? || Spaced(patched, project) then s' == patched
        else exists order :: IsListing(order, patched, project) && s' == Renumbered(patched, order)
    case Delete(project, id) =>
      s' == if In(s, project, id) then map k | k in s && k != id :: s[k] else s
  }

  // ---- Properties -----------------------------------------------------------

  /** Renumbering a listing spaces the project out, keeps its order, and touches nothing
      but the positions of the project's tasks. */
  lemma RenumberingKeepsOrder(s: Table, project: string, order: seq<string>, a: string, b: string)
    requires IsListing(order, s, project) && In(s, project, a) && In(s, project, b)
    ensures var s' := Renumbered(s, order);
      && (a != b ==> Apart(s'[a].position, s'[b].position))
      && (s[a].position < s[b].position ==> s'[a].position < s'[b].position)
      && s'[a] == s[a].(position := s'[a].position)
  {
    var i, j := IndexOf(order, a), IndexOf(order, b);
  }

  lemma RenumberingStaysInside(s: Table, project: string, order: seq<string>)
    requires IsListing(order, s, project)
    ensures Renumbered(s, order).Keys == s.Keys
    ensures forall id :: id in s && s[id].project != project ==> Renumbered(s, order)[id] == s[id]
  {
  }

  /** A request for one project leaves the others alone. */
  lemma OthersUntouched(r: Request, s: Table, s': Table, project: string)
    requires Step(r, s, s') && r.project != project
    ensures forall id :: In(s, project, id) <==> In(s', project, id)
    ensures forall id :: In(s, project, id) ==> s'[id] == s[id]
  {
    if r.Update? && In(s, r.project, r.id) {
      var patched := s[r.id := Patched(s[r.id], r.newTitle, r.newStatus, r.newPosition)];
      if r.newPosition.Some? && !Spaced(patched, r.project) {
        var order :| IsListing(order, patched, r.project) && s' == Renumbered(patched, order);
        RenumberingStaysInside(patched, r.project, order);
      }
    }
  }

  /** A move spaces its project out whatever the positions were before. */
  lemma MoveRestoresSpacing(r: Request, s: Table, s': Table)
    requires Step(r, s, s') && r.Update? && r.newPosition.Some? && In(s, r.project, r.id)
    ensures Spaced(s', r.project)
  {
    var patched := s[r.id := Patched(s[r.id], r.newTitle, r.newStatus, r.newPosition)];
    if !Spaced(patched, r.project) {
      var order :| IsListing(order, patched, r.project) && s' == Renumbered(patched, order);
      forall a, b | In(s', r.project, a) && In(s', r.project, b) && a != b
        ensures Apart(s'[a].position, s'[b].position)
      {
        RenumberingKeepsOrder(patched, r.project, order, a, b);
      }
    }
  }

  lemma StepKeepsSpacing(r: Request, s: Table, s': Table, project: string)
    requires Step(r, s, s') && Spaced(s, project)
    ensures Spaced(s', project)
  {
    if r.project != project {
      OthersUntouched(r, s, s', project);
    } else if r.Update? && In(s, project, r.id) && r.newPosition.Some? {
      MoveRestoresSpacing(r, s, s');
    }
  }

  ghost predicate IsRun(states: seq<Table>, requests: seq<Request>) {
    && |states| == |requests| + 1 && states[0] == map[]
    && forall i :: 0 <= i < |requests| ==> Step(requests[i], states[i], states[i + 1])
  }

  /** However requests follow one another, no two tasks of a project ever come closer than
      the minimum gap. */
  lemma {:induction false} AlwaysSpaced(states: seq<Table>, requests: seq<Request>, i: nat, project: string)
    requires IsRun(states, requests) && i < |states|
    ensures Spaced(states[i], project)
  {
    if i > 0 {
      AlwaysSpaced(states, requests, i - 1, project);
      StepKeepsSpacing(requests[i - 1], states[i - 1], states[i], project);
    }
  }

  /** A new task is last in every listing, and comes by at least 1 after the others. */
  lemma NewTaskIsLast(r: Request, s: Table, s': Table, order: seq<string>)
    requires Step(r, s, s') && r.Create? && r.id !in s && IsListing(order, s', r.project)
    ensures order != [] && order[|order| - 1] == r.id
    ensures forall id :: In(s, r.project, id) ==> s'[id] == s[id] && s'[id].position + 1.0 <= s'[r.id].position
  {
    assert In(s', r.project, r.id);
    var i := IndexOf(order, r.id);
    assert In(s', r.project, order[|order| - 1]);
  }

  /** It has the fields it was asked for, and comes by exactly 1 after the one before it, or
      at 1 if there is none. */
  lemma NewTaskIsAsAsked(r: Request, s: Table, s': Table, order: seq<string>)
    requires Step(r, s, s') && r.Create? && r.id !in s && IsListing(order, s', r.project)
    ensures s'.Keys == s.Keys + {r.id} && order != []
    ensures s'[r.id] == Task(r.project, r.title, r.status,
                             if |order| == 1 then 1.0 else s'[order[|order| - 2]].position + 1.0)
  {
    NewTaskIsLast(r, s, s', order);
    var position :| IsNextPosition(s, r.project, position) && s' == s[r.id := Task(r.project, r.title, r.status, position)];
    var n := |order| - 2;
    if n >= 0 {
      assert In(s', r.project, order[n]) && order[n] != r.id;
      assert In(s, r.project, order[n]);
      var id :| In(s, r.project, id) && position == s[id].position + 1.0;
      assert In(s', r.project, id);
      assert IndexOf(order, id) <= n;
    } else {
      forall id | In(s, r.project, id)
        ensures false
      {
        assert In(s', r.project, id);
      }
    }
  }

  /** A dragged task ends up where it was dropped: after every task below the drop point,
      before every task above it, renumbered or not; and the others keep their order. */
  lemma MoveLandsWhereDropped(r: Request, s: Table, s': Table, a: string, b: string)
    requires Step(r, s, s') && r.Update? && r.newPosition.Some? && In(s, r.project, r.id)
    requires In(s, r.project, a) && a != r.id && In(s, r.project, b) && b != r.id
    ensures In(s', r.project, a) && In(s', r.project, b) && In(s', r.project, r.id)
    ensures s[a].position < r.newPosition.value ==> s'[a].position < s'[r.id].position
    ensures s[a].position > r.newPosition.value ==> s'[a].position > s'[r.id].position
    ensures s[a].position < s[b].position ==> s'[a].position < s'[b].position
  {
    var patched := s[r.id := Patched(s[r.id], r.newTitle, r.newStatus, r.newPosition)];
    if !Spaced(patched, r.project) {
      var order :| IsListing(order, patched, r.project) && s' == Renumbered(patched, order);
      RenumberingKeepsOrder(patched, r.project, order, a, r.id);
      RenumberingKeepsOrder(patched, r.project, order, r.id, a);
      RenumberingKeepsOrder(patched, r.project, order, a, b);
      RenumberingKeepsOrder(patched, r.project, order, b, b);
    }
  }

  /** Where a task of the project would be after moving `id` there. */
  function Moved(s: Table, id: string, position: real, a: string): real
    requires a in s
  {
    if a == id then position else s[a].position
  }

  /** Some two tasks of the project would be less than 0.001 apart. */
  ghost predicate TooClose(s: Table, project: string, id: string, position: real) {
    exists a, b :: In(s, project, a) && In(s, project, b) && a != b
      && -0.001 < Moved(s, id, position, a) - Moved(s, id, position, b) < 0.001
  }

  lemma CloseIff(s: Table, project: string, id: string, position: real, patched: Table)
    requires In(s, project, id) && id in patched && patched == s[id := patched[id]]
    requires patched[id].project == project && patched[id].position == position
    ensures TooClose(s, project, id, position) <==> !Spaced(patched, project)
  {
    assert forall a :: In(s, project, a) <==> In(patched, project, a);
    assert forall a :: In(s, project, a) ==> patched[a].position == Moved(s, id, position, a);
  }

  /** An update changes the fields it names and no others. */
  lemma UpdateChangesFields(r: Request, s: Table, s': Table, a: string)
    requires Step(r, s, s') && r.Update? && In(s, r.project, r.id) && a in s
    ensures s'.Keys == s.Keys && s'[a].project == s[a].project
    ensures a != r.id ==> s'[a].title == s[a].title && s'[a].status == s[a].status
    ensures a == r.id ==> s'[a].title == match r.newTitle { case Some(title) => title case None => s[a].title }
    ensures a == r.id ==> s'[a].status == match r.newStatus { case Some(status) => status case None => s[a].status }
    ensures r.newPosition.None? ==> s'[a].position == s[a].position
  {
  }

  /** A move puts the task where it was dropped and leaves the others where they are, unless
      two tasks would come too close: exactly then the project is numbered 1, 2, 3, ... */
  lemma MoveRenumbersIff(r: Request, s: Table, s': Table, after: seq<string>)
    requires Step(r, s, s') && r.Update? && r.newPosition.Some? && In(s, r.project, r.id) && IsListing(after, s', r.project)
    ensures !TooClose(s, r.project, r.id, r.newPosition.value) ==>
      forall a :: In(s, r.project, a) ==> s'[a].position == Moved(s, r.id, r.newPosition.value, a)
    ensures TooClose(s, r.project, r.id, r.newPosition.value) ==>
      forall i :: 0 <= i < |after| ==> s'[after[i]].position == (i + 1) as real
  {
    var patched := s[r.id := Patched(s[r.id], r.newTitle, r.newStatus, r.newPosition)];
    CloseIff(s, r.project, r.id, r.newPosition.value, patched);
    if !Spaced(patched, r.project) {
      var order :| IsListing(order, patched, r.project) && s' == Renumbered(patched, order);
      MoveRestoresSpacing(r, s, s');
      ListedAgain(patched, r.project, order);
      ListingIsUnique(s', r.project, after, order);
      NumberedByPlace(patched, order);
    }
  }

  lemma NumberedByPlace(s: Table, order: seq<string>)
    requires Sorted(order, s)
    ensures forall i :: 0 <= i < |order| ==> Renumbered(s, order)[order[i]].position == (i + 1) as real
  {
    forall i | 0 <= i < |order|
      ensures IndexOf(order, order[i]) == i
    {
      var k := IndexOf(order, order[i]);
      assert order[k] == order[i];
    }
  }

  // ---- Listings ---------------------------------------------------------------

  /** Positions increase along the list. */
  ghost predicate Increasing(order: seq<string>, s: Table) {
    && (forall i :: 0 <= i < |order| ==> order[i] in s)
    && (forall i, j :: 0 <= i < j < |order| ==> s[order[i]].position < s[order[j]].position)
  }

  lemma NotBefore(order: seq<string>, m: nat, id: string)
    requires m <= |order| && id in order && id !in order[..m]
    ensures IndexOf(order, id) >= m
  {
    assert forall k :: 0 <= k < m ==> order[k] in order[..m];
  }

  lemma {:induction false} IncreasingIsUnique(s: Table, x: seq<string>, y: seq<string>, n: nat)
    requires Increasing(x, s) && Increasing(y, s) && (forall id :: id in x <==> id in y)
    requires n <= |x| && n <= |y|
    ensures x[..n] == y[..n]
  {
    if n > 0 {
      var m := n - 1;
      IncreasingIsUnique(s, x, y, m);
      NotBefore(x, m, y[m]);
      NotBefore(y, m, x[m]);
      assert x[m] == y[m];
      assert x[..n] == x[..m] + [x[m]] && y[..n] == y[..m] + [y[m]];
    }
  }

  /** So lists of the same ids with increasing positions are equal. */
  lemma IncreasingIsEqual(s: Table, x: seq<string>, y: seq<string>)
    requires Increasing(x, s) && Increasing(y, s) && (forall id :: id in x <==> id in y)
    ensures x == y
  {
    var n := if |x| < |y| then |x| else |y|;
    IncreasingIsUnique(s, x, y, n);
    if |x| > n {
      NotBefore(y, n, x[n]);
    }
    if |y| > n {
      NotBefore(x, n, y[n]);
    }
    assert x == x[..n] && y == y[..n];
  }

  lemma ListingIncreases(s: Table, project: string, order: seq<string>)
    requires Spaced(s, project) && IsListing(order, s, project)
    ensures Increasing(order, s)
  {
    forall i, j | 0 <= i < j < |order|
      ensures s[order[i]].position < s[order[j]].position
    {
      assert In(s, project, order[i]) && In(s, project, order[j]);
    }
  }

  /** Where tasks are spaced, the listing is unique: there are no ties to break. */
  lemma ListingIsUnique(s: Table, project: string, x: seq<string>, y: seq<string>)
    requires Spaced(s, project) && IsListing(x, s, project) && IsListing(y, s, project)
    ensures x == y
  {
    ListingIncreases(s, project, x);
    ListingIncreases(s, project, y);
    IncreasingIsEqual(s, x, y);
  }

  function Without(order: seq<string>, id: string): seq<string> {
    if order == [] then []
    else (if order[0] == id then [] else [order[0]]) + Without(order[1..], id)
  }

  lemma {:induction false} WithoutIncreases(order: seq<string>, id: string, s: Table)
    requires Increasing(order, s)
    ensures Increasing(Without(order, id), s)
    ensures forall x :: x in Without(order, id) <==> x in order && x != id
  {
    if order != [] {
      WithoutIncreases(order[1..], id, s);
      assert forall x :: x in order[1..] ==> s[order[0]].position < s[x].position;
      assert forall x :: x in order <==> x == order[0] || x in order[1..];
    }
  }

  /** A move takes the task out of the list and puts it back where it was dropped; the
      rest of the list is as before, renumbered or not. */
  lemma MoveReorders(r: Request, s: Table, s': Table, before: seq<string>, after: seq<string>)
    requires Step(r, s, s') && r.Update? && r.newPosition.Some? && In(s, r.project, r.id) && Spaced(s, r.project)
    requires IsListing(before, s, r.project) && IsListing(after, s', r.project)
    ensures Without(before, r.id) == Without(after, r.id)
    ensures r.id in after
    ensures forall i :: 0 <= i < |after| && after[i] != r.id ==>
      && after[i] in s
      && (s[after[i]].position < r.newPosition.value ==> i < IndexOf(after, r.id))
      && (s[after[i]].position > r.newPosition.value ==> i > IndexOf(after, r.id))
  {
    MoveRestoresSpacing(r, s, s');
    ListingIncreases(s', r.project, after);
    RestIsSame(r, s, s', before, after);
    MoveLandsInList(r, s, s', after);
  }

  lemma RestIsSame(r: Request, s: Table, s': Table, before: seq<string>, after: seq<string>)
    requires Step(r, s, s') && r.Update? && r.newPosition.Some? && In(s, r.project, r.id) && Spaced(s, r.project)
    requires IsListing(before, s, r.project) && IsListing(after, s', r.project) && Increasing(after, s')
    ensures Without(before, r.id) == Without(after, r.id)
  {
    ListingIncreases(s, r.project, before);
    WithoutIncreases(before, r.id, s);
    WithoutIncreases(after, r.id, s');
    StaysInProject(r, s, s');
    RestIncreases(r, s, s', Without(before, r.id));
    IncreasingIsEqual(s', Without(before, r.id), Without(after, r.id));
  }

  lemma MoveLandsInList(r: Request, s: Table, s': Table, after: seq<string>)
    requires Step(r, s, s') && r.Update? && r.newPosition.Some? && In(s, r.project, r.id)
    requires IsListing(after, s', r.project) && Increasing(after, s')
    ensures r.id in after
    ensures forall i :: 0 <= i < |after| && after[i] != r.id ==>
      && after[i] in s
      && (s[after[i]].position < r.newPosition.value ==> i < IndexOf(after, r.id))
      && (s[after[i]].position > r.newPosition.value ==> i > IndexOf(after, r.id))
  {
    StaysInProject(r, s, s');
    assert In(s', r.project, r.id);
    forall i | 0 <= i < |after| && after[i] != r.id
      ensures after[i] in s
      ensures s[after[i]].position < r.newPosition.value ==> i < IndexOf(after, r.id)
      ensures s[after[i]].position > r.newPosition.value ==> i > IndexOf(after, r.id)
    {
      assert In(s', r.project, after[i]);
      MoveLandsWhereDropped(r, s, s', after[i], after[i]);
      InOrder(s', after, i, IndexOf(after, r.id));
    }
  }

  lemma InOrder(s: Table, order: seq<string>, i: nat, k: nat)
    requires Increasing(order, s) && i < |order| && k < |order|
    ensures s[order[i]].position < s[order[k]].position <==> i < k
    ensures s[order[i]].position > s[order[k]].position <==> i > k
  {
  }

  lemma StaysInProject(r: Request, s: Table, s': Table)
    requires Step(r, s, s') && r.Update? && In(s, r.project, r.id)
    ensures forall id :: In(s, r.project, id) <==> In(s', r.project, id)
  {
  }

  lemma RestIncreases(r: Request, s: Table, s': Table, rest: seq<string>)
    requires Step(r, s, s') && r.Update? && r.newPosition.Some? && In(s, r.project, r.id)
    requires Increasing(rest, s) && forall id :: id in rest ==> In(s, r.project, id) && id != r.id
    ensures Increasing(rest, s')
  {
    StaysInProject(r, s, s');
    forall i, j | 0 <= i < j < |rest|
      ensures s'[rest[i]].position < s'[rest[j]].position
    {
      MoveLandsWhereDropped(r, s, s', rest[i], rest[j]);
    }
  }

  // ---- The store and its handlers -------------------------------------------

  datatype Reply = BadRequest | Failed | NotFound | Created(position: real) | Patch | Resync(order: seq<string>) | NoContent

  function Place(order: seq<string>, s: Table, id: string): (k: nat)
    requires id in s && forall i :: 0 <= i < |order| ==> order[i] in s
    ensures k <= |order| && forall i :: 0 <= i < k ==> s[order[i]].position < s[id].position
    ensures k < |order| ==> s[id].position <= s[order[k]].position
  {
    if order == [] || s[id].position <= s[order[0]].position then 0
    else
      assert forall i :: 0 <= i < |order| - 1 ==> order[1..][i] == order[i + 1];
      1 + Place(order[1..], s, id)
  }

  function Insert(order: seq<string>, k: nat, id: string): seq<string>
    requires k <= |order|
  {
    order[..k] + [id] + order[k..]
  }

  lemma InsertAdds(order: seq<string>, k: nat, id: string)
    requires k <= |order|
    ensures forall x :: x in Insert(order, k, id) <==> x in order || x == id
  {
    assert order == order[..k] + order[k..];
  }

  lemma InsertKeepsSorted(order: seq<string>, s: Table, id: string)
    requires Sorted(order, s) && id in s && id !in order
    ensures Sorted(Insert(order, Place(order, s, id), id), s)
  {
    var k := Place(order, s, id);
    var more := Insert(order, k, id);
    forall i, j | 0 <= i < j < |more|
      ensures more[i] != more[j] && more[i] in s && more[j] in s && s[more[i]].position <= s[more[j]].position
    {
      assert i != k ==> more[i] == order[if i < k then i else i - 1];
      assert j != k ==> more[j] == order[if j < k then j else j - 1];
      if j == k {
        assert order[i] in order;
      }
      if i == k {
        assert order[j - 1] in order;
        assert k < j - 1 ==> s[order[k]].position <= s[order[j - 1]].position;
      }
    }
  }

  class TaskStore {
    var tasks: Table

    constructor ()
      ensures tasks == map[]
    {
      tasks := map[];
    }

    /** The query behind the task list. */
    method ListTasks(project: string) returns (order: seq<string>)
      ensures IsListing(order, tasks, project)
    {
      order := [];
      var todo := tasks.Keys;
      while todo != {}
        invariant todo <= tasks.Keys
        invariant Sorted(order, tasks)
        invariant forall id :: id in order <==> In(tasks, project, id) && id !in todo
      {
        var id :| id in todo;
        if tasks[id].project == project {
          InsertKeepsSorted(order, tasks, id);
          InsertAdds(order, Place(order, tasks, id), id);
          order := Insert(order, Place(order, tasks, id), id);
        }
        todo := todo - {id};
      }
    }

    /** SELECT MAX(position) plus one, or 1 for an empty project. */
    method NextTaskPosition(project: string) returns (position: real)
      ensures IsNextPosition(tasks, project, position)
    {
      var todo, best: Option<real> := tasks.Keys, None;
      while todo != {}
        invariant todo <= tasks.Keys
        invariant best.None? ==> forall id :: In(tasks, project, id) ==> id in todo
        invariant best.Some? ==> forall id :: In(tasks, project, id) && id !in todo ==> tasks[id].position <= best.value
        invariant best.Some? ==> exists id :: In(tasks, project, id) && tasks[id].position == best.value
      {
        var id :| id in todo;
        if tasks[id].project == project && (best.None? || tasks[id].position > best.value) {
          assert In(tasks, project, id);
          best := Some(tasks[id].position);
        }
        todo := todo - {id};
      }
      position := if best.Some? then best.value + 1.0 else 1.0;
    }

    method Create(trim: string -> string, project: string, id: string, title: string, status: string)
        returns (reply: Reply)
      modifies this
      ensures reply.BadRequest? <==> trim(title) == "" || status !in {"", "todo", "in-progress", "done"}
      ensures reply.BadRequest? ==> tasks == old(tasks)
      ensures !reply.BadRequest? ==>
        Step(Request.Create(project, id, trim(title), if status == "" then "todo" else status), old(tasks), tasks)
      ensures reply.Created? <==> !reply.BadRequest? && id !in old(tasks)
      ensures reply.Created? ==> In(tasks, project, id) && tasks[id].position == reply.position
    {
      var wanted := if status == "" then "todo" else status;
      if trim(title) == "" || !ValidStatus(wanted) {
        return BadRequest;
      }
      var position := NextTaskPosition(project);
      if id in tasks {
        return Failed;
      }
      tasks := tasks[id := Task(project, trim(title), wanted, position)];
      reply := Created(position);
    }

    /** Whether adjacent positions leave the minimum gap. */
    method LeavesGaps(project: string, order: seq<string>) returns (ok: bool)
      requires IsListing(order, tasks, project)
      ensures ok <==> Spaced(tasks, project)
    {
      if |order| < 2 {
        return true;
      }
      var minGap := tasks[order[1]].position - tasks[order[0]].position;
      for i := 2 to |order|
        invariant forall j :: 0 < j < i ==> minGap <= tasks[order[j]].position - tasks[order[j - 1]].position
        invariant exists j :: 0 < j < i && minGap == tasks[order[j]].position - tasks[order[j - 1]].position
      {
        var gap := tasks[order[i]].position - tasks[order[i - 1]].position;
        if gap < minGap {
          minGap := gap;
        }
      }
      ok := minGap >= MIN_GAP;
      AdjacentGaps(tasks, project, order, minGap);
    }

    /** One UPDATE per listed task, in one transaction. */
    method RenumberTasks(project: string, order: seq<string>)
      requires IsListing(order, tasks, project)
      modifies this
      ensures tasks == Renumbered(old(tasks), order)
    {
      for i := 0 to |order|
        invariant MovedUpTo(old(tasks), tasks, order, i)
      {
        MoveOne(old(tasks), tasks, order, i);
        tasks := tasks[order[i] := tasks[order[i]].(position := (i + 1) as real)];
      }
      assert order[..|order|] == order;
    }

    method Update(trim: string -> string, project: string, id: string, title: Option<string>, status: Option<string>,
                  position: Option<real>) returns (reply: Reply)
      modifies this
      ensures reply.BadRequest? <==>
        (title.Some? && trim(title.value) == "") || (status.Some? && status.value !in {"todo", "in-progress", "done"})
      ensures reply.BadRequest? ==> tasks == old(tasks)
      ensures !reply.BadRequest? ==>
        var wanted := match title { case Some(t) => Some(trim(t)) case None => None };
        Step(Request.Update(project, id, wanted, status, position), old(tasks), tasks)
      ensures reply.NotFound? <==> !reply.BadRequest? && !In(old(tasks), project, id)
      ensures reply.Resync? <==> !reply.BadRequest? && Crowds(old(tasks), project, id, position)
      ensures reply.Resync? ==> IsListing(reply.order, tasks, project)
    {
      if (title.Some? && trim(title.value) == "") || (status.Some? && !ValidStatus(status.value)) {
        return BadRequest;
      }
      if !In(tasks, project, id) {
        return NotFound;
      }
      tasks := tasks[id := Patched(tasks[id], Trimmed(trim, title), status, position)];
      if position.Some? {
        CrowdedByPosition(old(tasks), project, id, tasks[id]);
        var order := ListTasks(project);
        var ok := LeavesGaps(project, order);
        if !ok {
          ListedAgain(tasks, project, order);
          RenumberTasks(project, order);
          return Resync(order);
        }
      }
      reply := Patch;
    }

    method Delete(project: string, id: string) returns (reply: Reply)
      modifies this
      ensures Step(Request.Delete(project, id), old(tasks), tasks)
      ensures reply == if In(old(tasks), project, id) then NoContent else NotFound
    {
      if !In(tasks, project, id) {
        return NotFound;
      }
      tasks := map k | k in tasks && k != id :: tasks[k];
      reply := NoContent;
    }
  }

  /** The first `n` listed tasks have been renumbered. */
  ghost predicate MovedUpTo(s: Table, t: Table, order: seq<string>, n: nat)
    requires n <= |order|
  {
    && t.Keys == s.Keys
    && forall id :: id in t ==>
         t[id] == if id in order[..n] then s[id].(position := (IndexOf(order, id) + 1) as real) else s[id]
  }

  lemma MoveOne(s: Table, t: Table, order: seq<string>, n: nat)
    requires Sorted(order, s) && n < |order| && MovedUpTo(s, t, order, n)
    ensures MovedUpTo(s, t[order[n] := t[order[n]].(position := (n + 1) as real)], order, n + 1)
  {
    assert order[..n + 1] == order[..n] + [order[n]];
    var k := IndexOf(order, order[n]);
    assert order[k] == order[n];
  }

  /** The smallest adjacent gap decides for all pairs. */
  lemma AdjacentGaps(s: Table, project: string, order: seq<string>, minGap: real)
    requires IsListing(order, s, project)
    requires forall j :: 0 < j < |order| ==> minGap <= s[order[j]].position - s[order[j - 1]].position
    requires exists j :: 0 < j < |order| && minGap == s[order[j]].position - s[order[j - 1]].position
    ensures minGap >= MIN_GAP <==> Spaced(s, project)
  {
    var j :| 0 < j < |order| && minGap == s[order[j]].position - s[order[j - 1]].position;
    assert In(s, project, order[j]) && In(s, project, order[j - 1]);
    if minGap >= MIN_GAP {
      WideGaps(s, project, order, minGap);
    } else {
      assert !Apart(s[order[j]].position, s[order[j - 1]].position);
    }
  }

  lemma WideGaps(s: Table, project: string, order: seq<string>, minGap: real)
    requires IsListing(order, s, project) && minGap >= MIN_GAP
    requires forall j :: 0 < j < |order| ==> minGap <= s[order[j]].position - s[order[j - 1]].position
    ensures Spaced(s, project)
  {
    forall a, b | In(s, project, a) && In(s, project, b) && a != b
      ensures Apart(s[a].position, s[b].position)
    {
      var i, k := IndexOf(order, a), IndexOf(order, b);
      if i < k {
        GapBefore(s, order, minGap, i, k);
      } else {
        GapBefore(s, order, minGap, k, i);
      }
    }
  }

  lemma GapBefore(s: Table, order: seq<string>, minGap: real, i: nat, k: nat)
    requires Sorted(order, s) && i < k < |order|
    requires forall j :: 0 < j < |order| ==> minGap <= s[order[j]].position - s[order[j - 1]].position
    ensures minGap <= s[order[k]].position - s[order[i]].position
  {
    assert s[order[i]].position <= s[order[k - 1]].position;
  }

  /** A renumbered table lists in the same order. */
  lemma ListedAgain(s: Table, project: string, order: seq<string>)
    requires IsListing(order, s, project)
    ensures IsListing(order, Renumbered(s, order), project)
  {
    forall i | 0 <= i < |order|
      ensures IndexOf(order, order[i]) == i
    {
      var k := IndexOf(order, order[i]);
      assert order[k] == order[i];
    }
    forall id
      ensures In(Renumbered(s, order), project, id) <==> In(s, project, id)
    {
    }
  }
}
