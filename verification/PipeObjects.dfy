/** The pipe, its notifiers and the sniffing cache in front of its reader, as objects. */
module PipeObjects {
  import opened Bytes
  import opened Options
  import opened Pipe

  /** A channel with one slot: any number of signals before a wait leave one token. */
  class Notifier {
    var token: bool

    constructor ()
      ensures !token
    {
      token := false;
    }

    method Signal()
      modifies this
      ensures token
    {
      if !token {
        token := true;
      }
    }

    /** The receive from Wait(), when it can proceed. */
    method Take()
      requires token
      modifies this
      ensures !token
    {
      token := false;
    }
  }

  /** How a timed read ends. */
  datatype ReadResult = Data(data: bytes) | Fail(error: Error) | Timeout

  class PipeQueue {
    const config: Config
    const readSignal: Notifier
    const writeSignal: Notifier
    var data: bytes
    var status: Status
    var done: bool
    /** Bytes accepted in lock order, bytes handed out, and whether an interrupt threw some away. */
    ghost var accepted: bytes
    ghost var delivered: bytes
    ghost var lost: bool

    ghost predicate Valid()
      reads this
    {
      && WellFormedCore(Value())
      && delivered + data <= accepted
      && (!lost ==> delivered + data == accepted)
      && (lost ==> status == Errord)
      && readSignal != writeSignal
    }

    function Value(): Core
      reads this
    {
      Core(data, status, done)
    }

    constructor (config: Config)
      ensures Valid() && this.config == config && Value() == Init(config).core && accepted == [] && delivered == [] && !lost
      ensures fresh(readSignal) && fresh(writeSignal) && !readSignal.token && !writeSignal.token
    {
      this.config := config;
      var r := new Notifier();
      var w := new Notifier();
      readSignal, writeSignal := r, w;
      data, status, done := [], Open, false;
      accepted, delivered, lost := [], [], false;
    }

    method State(forRead: bool) returns (e: Option<Error>)
      ensures e == GetState(Value(), config, forRead)
      ensures status == Open && forRead ==> e == None
      ensures !forRead && e == None ==> status == Open && (config.limit >= 0 ==> |data| <= config.limit)
    {
      e := None;
      if status == Open {
        if !forRead && config.limit >= 0 && |data| > config.limit {
          e := Some(BufferFull);
        }
      } else if status == Closed {
        if !forRead {
          e := Some(ClosedPipe);
        } else if data == [] {
          e := Some(Eof);
        }
      } else {
        e := Some(ClosedPipe);
      }
    }

    method ReadInternal() returns (look: Look)
      requires Valid()
      modifies this`data, this`delivered
      ensures Valid() && look == LookRead(old(Value()), config) && Value() == AfterRead(old(Value()), config)
      ensures delivered == old(delivered) + (if look.Taken? then look.data else [])
    {
      var e := State(true);
      NilRight(delivered);
      if e.Some? {
        return Failed(e.value);
      }
      NilRight(delivered + data);
      look := if data == [] then Nothing else Taken(data);
      delivered := delivered + data;
      data := [];
    }

    method WriteInternal(mb: bytes) returns (e: Option<Error>)
      requires Valid()
      modifies this`data, this`accepted
      ensures Valid() && e == GetState(old(Value()), config, false) && Value() == AfterWrite(old(Value()), config, mb)
      ensures accepted == if e.None? then old(accepted) + mb else old(accepted)
    {
      e := State(false);
      if e.None? {
        Assoc(delivered, data, mb);
        data := data + mb;
        accepted := accepted + mb;
      }
    }

    method Close()
      requires Valid()
      modifies this`status, this`done
      ensures Valid() && Value() == AfterClose(old(Value()))
    {
      if status == Closed || status == Errord {
        return;
      }
      status, done := Closed, true;
    }

    method Interrupt()
      requires Valid()
      modifies this`data, this`status, this`done, this`lost
      ensures Valid() && Value() == AfterInterrupt(old(Value())) && lost == (old(lost) || old(data) != [])
    {
      NilRight(delivered);
      if data != [] {
        data, lost := [], true;
        if status == Closed {
          status := Errord;
        }
      }
      if status == Closed || status == Errord {
        return;
      }
      status, done := Errord, true;
    }

    /** A timed read seen from outside: its last look, or the timeout when that look finds nothing. */
    method ReadMultiBufferTimeout() returns (r: ReadResult)
      requires Valid()
      modifies this`data, this`delivered, writeSignal
      ensures Valid()
      ensures r == match LookRead(old(Value()), config) case Nothing => Timeout case Taken(d) => Data(d) case Failed(e) => Fail(e)
      ensures Value() == AfterRead(old(Value()), config) && delivered == old(delivered) + (if r.Data? then r.data else [])
      ensures !r.Timeout? ==> writeSignal.token
      ensures r.Timeout? ==> status == Open && data == []
    {
      var look := ReadInternal();
      match look
      case Nothing => r := Timeout;
      case Taken(d) => writeSignal.Signal(); r := Data(d);
      case Failed(e) => writeSignal.Signal(); r := Fail(e);
    }
  }

  /**
   * The dispatcher's reader while it sniffs: Cache looks ahead, reads get what was looked at first. Whatever the mix of
   * Cache and reads, what the reads return is the stream itself.
   */
  class CachedReader {
    const pipe: PipeQueue
    var cache: bytes
    /** Everything returned by reads so far. */
    ghost var returned: bytes

    ghost var interrupted: bool

    /** What reads returned, then the cache, is what the pipe handed out, until an interrupt ends the stream. */
    ghost predicate Valid()
      reads this, pipe
    {
      && pipe.Valid()
      && (!interrupted ==> returned + cache == pipe.delivered)
      && (interrupted ==> cache == [] && pipe.data == [] && pipe.status != Open)
    }

    constructor (pipe: PipeQueue)
      requires pipe.Valid() && pipe.delivered == []
      ensures Valid() && this.pipe == pipe && cache == [] && returned == [] && !interrupted
    {
      this.pipe := pipe;
      cache, returned, interrupted := [], [], false;
    }

    /** Fills `b` with as much of what lies ahead as fits; the stream later read is the same as without it. */
    method Cache(capacity: nat) returns (ok: bool, b: bytes)
      requires Valid()
      modifies this`cache, pipe`data, pipe`delivered, pipe.writeSignal
      ensures Valid() && returned == old(returned) && pipe.accepted == old(pipe.accepted)
      ensures returned + cache + pipe.data == old(returned + cache + pipe.data)
      ensures ok ==> |b| <= capacity && b <= cache && (|b| == capacity || b == cache)
      ensures ok <==> old(pipe.data) != [] && old(pipe.status) != Errord
      ensures !ok ==> cache == old(cache) && pipe.data == old(pipe.data)
    {
      CacheKeeps(returned, cache, pipe.data);
      var r := pipe.ReadMultiBufferTimeout();
      b := [];
      ok := r.Data?;
      if ok {
        cache := cache + r.data;
        var n := if |cache| < capacity then |cache| else capacity;
        b := cache[..n];
        NilRight(returned + cache);
      } else {
        NilRight(pipe.delivered);
      }
    }

    /** A read: the cache first, the pipe only when the cache is empty. */
    method ReadMultiBufferTimeout() returns (r: ReadResult)
      requires Valid()
      modifies this`cache, this`returned, pipe`data, pipe`delivered, pipe.writeSignal
      ensures Valid() && pipe.accepted == old(pipe.accepted)
      ensures returned == old(returned) + (if r.Data? then r.data else [])
      ensures r.Data? ==> r.data == if old(cache) != [] then old(cache) else old(pipe.data)
      ensures returned + cache + pipe.data == old(returned + cache + pipe.data)
      ensures r.Data? <==> old(cache) != [] || (old(pipe.data) != [] && old(pipe.status) != Errord)
    {
      NilRight(returned);
      NilRight(returned + cache);
      NilRight(returned + cache + pipe.data);
      if cache != [] {
        r := Data(cache);
        returned := returned + cache;
        cache := [];
        NilRight(returned);
        return;
      }
      r := pipe.ReadMultiBufferTimeout();
      if r.Data? {
        returned := returned + r.data;
        NilRight(returned);
      }
    }

    method Interrupt()
      requires Valid()
      modifies this`cache, this`interrupted, pipe`data, pipe`status, pipe`done, pipe`lost
      ensures Valid() && interrupted && returned == old(returned) && pipe.Value() == AfterInterrupt(old(pipe.Value()))
    {
      cache, interrupted := [], true;
      pipe.Interrupt();
    }

    /** Until an interrupt, nothing accepted by the pipe is missing from what was read, cached and buffered. */
    lemma Transparent()
      requires Valid() && !pipe.lost && !interrupted
      ensures returned + cache + pipe.data == pipe.accepted
    {
    }
  }

  lemma CacheKeeps(returned: bytes, cache: bytes, data: bytes)
    ensures returned + (cache + data) == returned + cache + data && returned + cache + data + [] == returned + cache + data
  {
    Assoc(returned, cache, data);
    NilRight(returned + cache + data);
  }
}
