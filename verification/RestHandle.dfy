/**
  The objects behind the filter chain: each filter's own callback map, changed in place, and the
  handle that registers callbacks and posts tasks (src/rest/http_filter.h, src/rest/rest_handle.cc).
  Each method performs one operation of module FilterChain.
 */
module RestHandles {

  import opened FilterChain

  datatype Option<T> = None | Some(value: T)

  class HttpFilter {
    var callbacks: map<Id, Callback>

    constructor ()
      ensures callbacks == map[]
    {
      callbacks := map[];
    }

    method SetAsyncFilter(id: Id, callback: Callback)
      modifies this
      ensures callbacks == if id in old(callbacks) then old(callbacks) else old(callbacks)[id := callback]
    {
      if id !in callbacks {
        callbacks := callbacks[id := callback];
      }
    }

    /** The locked part of `call_to_callback`: a callback is given out once. */
    method TakeCallback(id: Id) returns (mine: Option<Callback>)
      modifies this
      ensures mine == if id in old(callbacks) then Some(old(callbacks)[id]) else None
      ensures callbacks == old(callbacks) - {id}
    {
      mine := None;
      if id in callbacks {
        mine := Some(callbacks[id]);
        callbacks := callbacks - {id};
      }
    }
  }

  class RestHandle {
    const preFilters: seq<HttpFilter>
    var tasks: seq<Task>
    var arrived: set<Id>
    var accepted: seq<Accepted>
    var answers: seq<Answer>
    var faults: seq<Id>

    ghost predicate Valid() {
      forall i, j :: 0 <= i < j < |preFilters| ==> preFilters[i] != preFilters[j]
    }

    ghost function View(): State
      reads this, preFilters
    {
      State(seq(|preFilters|, i requires 0 <= i < |preFilters| reads preFilters => preFilters[i].callbacks),
            tasks, arrived, accepted, answers, faults)
    }

    constructor (filters: seq<HttpFilter>)
      requires forall i, j :: 0 <= i < j < |filters| ==> filters[i] != filters[j]
      requires forall i :: 0 <= i < |filters| ==> filters[i].callbacks == map[]
      ensures Valid() && preFilters == filters && View() == Initial(|filters|)
    {
      preFilters := filters;
      tasks, arrived, accepted, answers, faults := [], {}, [], [], [];
    }

    /** `operator()` */
    method Call(id: Id)
      requires Valid()
      modifies this
      ensures View() == Arrive(old(View()), id)
    {
      arrived := arrived + {id};
      if |preFilters| > 0 {
        tasks := tasks + [Task.Execute(id, 0, OK)];
      } else {
        HandleEndFilters(id, OK);
      }
    }

    method HandleEndFilters(id: Id, status: int)
      modifies `answers
      ensures View() == EndFilters(old(View()), id, status)
      ensures status == 200 ==> answers == old(answers) + [Handled(id)]
      ensures status == 1000 || status == 1001 || status == 1002 ==> answers == old(answers) + [Refused(id, 400)]
      ensures status !in {200, 1000, 1001, 1002} ==> answers == old(answers) + [Refused(id, status)]
    {
      if status != OK {
        var code := status;
        if status == 1000 {
          code := 400;
        } else if status == 1001 {
          code := 400;
        } else if status == 1002 {
          code := 400;
        }
        answers := answers + [Refused(id, code)];
      } else {
        answers := answers + [Handled(id)];
      }
    }

    /** `execute_filters` */
    method RunFilters(id: Id, num: nat, status: int)
      requires Valid() && num < |preFilters|
      modifies this, preFilters
      ensures View() == ExecuteFilters(old(View()), id, num, status)
      ensures status == 200 ==> tasks == old(tasks) + [Post(id, num)] && id in preFilters[num].callbacks
      ensures status == 200 && id !in old(preFilters[num].callbacks) ==>
                preFilters[num].callbacks[id] == if num + 1 < |preFilters| then Continue(num + 1) else Finish
      ensures status != 200 ==> tasks == old(tasks) && |answers| == |old(answers)| + 1
    {
      if status != OK {
        HandleEndFilters(id, status);
      } else {
        var callback := if num != |preFilters| - 1 then Continue(num + 1) else Finish;
        preFilters[num].SetAsyncFilter(id, callback);
        tasks := tasks + [Post(id, num)];
        ghost var before, after := old(View()).callbacks, View().callbacks;
        assert forall i :: 0 <= i < |preFilters| && i != num ==> after[i] == before[i];
        assert after == SetAsyncFilter(old(View()), num, id, callback).callbacks;
      }
    }

    /** A filter's report: the callback it finds is consumed, and what it is bound to is due to run. */
    method CallBack(num: nat, id: Id, status: int)
      requires Valid() && num < |preFilters|
      modifies this, preFilters
      ensures View() == CallToCallback(old(View()), num, id, status)
      ensures preFilters[num].callbacks == old(preFilters[num].callbacks) - {id}
      ensures id in old(preFilters[num].callbacks) ==>
                tasks == old(tasks) + [match old(preFilters[num].callbacks)[id]
                                       case Continue(next) => Execute(id, next, status)
                                       case Finish => End(id, status)]
      ensures id !in old(preFilters[num].callbacks) ==> tasks == old(tasks) && faults == old(faults) + [id]
    {
      var mine := preFilters[num].TakeCallback(id);
      ghost var before, after := old(View()).callbacks, View().callbacks;
      assert forall i :: 0 <= i < |preFilters| && i != num ==> after[i] == before[i];
      match mine {
        case None =>
          faults := faults + [id];
          assert after[num] == before[num];
          assert after == before;
        case Some(callback) =>
          accepted := accepted + [Accepted(id, num, status)];
          tasks := tasks + [match callback
                            case Continue(next) => Task.Execute(id, next, status)
                            case Finish => End(id, status)];
          assert after == before[num := before[num] - {id}];
      }
    }
  }
}
