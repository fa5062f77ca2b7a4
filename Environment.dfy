/** The shell's variable tables, jbash.environment.JEnvironment and
    JBashEnvironment: each wraps one mutable string-to-string hash map.  A name
    that is not bound reads as "". */
module Environment {

  /** A java.util.HashMap<String, String>: one mutable object holding a finite map. */
  class StringTable {
    var entries: map<string, string>

    constructor (initial: map<string, string>)
      ensures entries == initial
    {
      entries := initial;
    }

    /** HashMap.put. */
    method Put(key: string, value: string)
      modifies this
      ensures entries == old(entries)[key := value]
    {
      entries := entries[key := value];
    }
  }

  /** What get returns for name v in table m: its value, or "" when HashMap.get
      gives null. */
  function Lookup(m: map<string, string>, v: string): (r: string)
    ensures v in m ==> r == m[v]
    ensures v !in m ==> r == ""
  {
    if v in m then m[v] else ""
  }

  /** After binding v to x, v reads as x and every other name reads as before. */
  lemma LookupUpdate(m: map<string, string>, v: string, x: string, w: string)
    ensures Lookup(m[v := x], w) == if w == v then x else Lookup(m, w)
  {
  }

  /** The table a new JEnvironment starts with. */
  const InitialTable: map<string, string> := map["PS1" := "$ ", "PWD" := "/", "HOME" := "/", "?" := "0"]

  /** The table the JBashEnvironment singleton starts with: no "?". */
  const BashInitialTable: map<string, string> := map["PS1" := "$ ", "PWD" := "/", "HOME" := "/"]

  /** The initial bindings of both tables, and "?" unset in the second. */
  lemma InitialBindings()
    ensures Lookup(InitialTable, "PS1") == "$ " && Lookup(InitialTable, "PWD") == "/"
    ensures Lookup(InitialTable, "HOME") == "/" && Lookup(InitialTable, "?") == "0"
    ensures Lookup(BashInitialTable, "PS1") == "$ " && Lookup(BashInitialTable, "PWD") == "/"
    ensures Lookup(BashInitialTable, "HOME") == "/" && Lookup(BashInitialTable, "?") == ""
    ensures InitialTable == BashInitialTable["?" := "0"]
  {
  }

  class JEnvironment {
    const environment: StringTable

    constructor ()
      ensures fresh(environment) && environment.entries == InitialTable
    {
      environment := new StringTable(InitialTable);
    }

    /** The object Object.clone makes: a field-by-field copy, table included. */
    constructor Sharing(table: StringTable)
      ensures environment == table
    {
      environment := table;
    }

    /** set: bind v to x in the shared table. */
    method Set(v: string, x: string)
      modifies environment
      ensures environment.entries == old(environment.entries)[v := x]
      ensures forall w :: Get(w) == if w == v then x else old(Get(w))
    {
      environment.Put(v, x);
    }

    /** get. */
    function Get(v: string): (r: string)
      reads this.environment
      ensures v in environment.entries ==> r == environment.entries[v]
      ensures v !in environment.entries ==> r == ""
    {
      Lookup(environment.entries, v)
    }

    /** clone: a new JEnvironment that shares this one's table, so a set through
        either one is seen through the other. */
    method Clone() returns (c: JEnvironment)
      ensures fresh(c) && c.environment == environment
      ensures forall w :: c.Get(w) == Get(w)
    {
      c := new JEnvironment.Sharing(environment);
    }
  }

  class JBashEnvironment {
    const environment: StringTable

    /** The private constructor, called only by getInstance. */
    constructor ()
      ensures fresh(environment) && environment.entries == BashInitialTable
    {
      environment := new StringTable(BashInitialTable);
    }
  }

  /** JBashEnvironment's static part: the lazily created singleton.  As the
      constructor is private, every JBashEnvironment a caller holds is the
      instance. */
  class JBashEnvironmentStatics {
    var instance: JBashEnvironment?

    constructor ()
      ensures instance == null
    {
      instance := null;
    }

    /** getInstance: creates the instance on the first call and returns that
        same object on every call. */
    method GetInstance() returns (r: JBashEnvironment)
      modifies this
      ensures old(instance) != null ==> r == old(instance)
      ensures old(instance) == null ==> fresh(r) && fresh(r.environment) && r.environment.entries == BashInitialTable
      ensures instance == r
    {
      if instance == null {
        instance := new JBashEnvironment();
      }
      r := instance;
    }

    /** set, called on the instance: binds v to x in the instance's table. */
    method Set(receiver: JBashEnvironment, v: string, x: string)
      requires instance == receiver
      modifies this, receiver.environment
      ensures instance == receiver
      ensures receiver.environment.entries == old(receiver.environment.entries)[v := x]
    {
      var inst := GetInstance();
      inst.environment.Put(v, x);
    }

    /** get, called on the instance. */
    method Get(receiver: JBashEnvironment, v: string) returns (r: string)
      requires instance == receiver
      modifies this
      ensures instance == receiver
      ensures r == Lookup(receiver.environment.entries, v)
    {
      var inst := GetInstance();
      r := Lookup(inst.environment.entries, v);
    }
  }
}
