/** The local `Echo` stand-in at the end of `src/components/tasks/Tasks.jsx`:
    a registry from channel names to channel entries, each entry holding one
    callback per event name. Callbacks are kept, never invoked: the stand-in
    has no way to deliver an event. */
module Realtime {

  /** The options object given to the constructor; stored and never read. */
  datatype EchoOptions = EchoOptions(broadcaster: string, key: string, cluster: string, forceTLS: bool)

  const TasksChannel: string := "tasks-channel"

  /** The object `channel(name)` creates: `{ listeners: {}, listen(event, callback) }`. */
  class ChannelEntry<C> {
    var listeners: map<string, C>

    constructor ()
      ensures listeners == map[]
    {
      listeners := map[];
    }

    /** `listen(event, callback)`: overwrite this one event's callback and return
        the entry itself, so that calls can be chained. */
    method Listen(event: string, callback: C) returns (self: ChannelEntry<C>)
      modifies this
      ensures self == this
      ensures listeners == old(listeners)[event := callback]
    {
      listeners := listeners[event := callback];
      self := this;
    }
  }

  class Echo<C> {
    const options: EchoOptions
    var channels: map<string, ChannelEntry<C>>

    /** Distinct names never share an entry, because each entry is created fresh. */
    ghost predicate Valid()
      reads this
    {
      forall a, b | a in channels && b in channels && a != b :: channels[a] != channels[b]
    }

    constructor (options: EchoOptions)
      ensures Valid()
      ensures this.options == options && channels == map[]
    {
      this.options := options;
      channels := map[];
    }

    /** `channel(name)`: hand back the entry registered under `name`, creating an
        empty one only the first time, so repeated calls keep its listeners. */
    method Channel(name: string) returns (entry: ChannelEntry<C>)
      requires Valid()
      modifies this
      ensures Valid()
      ensures name in old(channels) ==>
        && entry == old(channels[name])
        && entry.listeners == old(channels[name].listeners)
        && channels == old(channels)
      ensures name !in old(channels) ==>
        && fresh(entry)
        && entry.listeners == map[]
        && channels == old(channels)[name := entry]
    {
      if name !in channels {
        var created := new ChannelEntry();
        channels := channels[name := created];
      }
      entry := channels[name];
    }

    /** `leaveChannel(name)`: drop that one name from the registry. */
    method LeaveChannel(name: string)
      requires Valid()
      modifies this
      ensures Valid()
      ensures channels == old(channels) - {name}
    {
      channels := channels - {name};
    }
  }

  /** The subscription made when the task list mounts: one chain of `listen`
      calls on the "tasks-channel" entry. All three callbacks land on that one
      entry, earlier listeners for other events stay, and no other channel's
      listeners change. */
  method SubscribeTaskEvents<C>(echo: Echo<C>, onCreated: C, onUpdated: C, onDeleted: C)
    returns (entry: ChannelEntry<C>)
    requires echo.Valid()
    modifies echo, echo.channels.Values
    ensures echo.Valid()
    ensures TasksChannel in echo.channels && echo.channels[TasksChannel] == entry
    ensures echo.channels.Keys == old(echo.channels.Keys) + {TasksChannel}
    ensures entry.listeners ==
      (if TasksChannel in old(echo.channels) then old(echo.channels[TasksChannel].listeners) else map[])
        ["TaskCreatedEvent" := onCreated]["TaskUpdatedEvent" := onUpdated]["TaskDeletedEvent" := onDeleted]
    ensures forall n | n in old(echo.channels) && n != TasksChannel ::
      echo.channels[n] == old(echo.channels[n]) && echo.channels[n].listeners == old(echo.channels[n].listeners)
  {
    var ch := echo.Channel(TasksChannel);
    ch := ch.Listen("TaskCreatedEvent", onCreated);
    ch := ch.Listen("TaskUpdatedEvent", onUpdated);
    ch := ch.Listen("TaskDeletedEvent", onDeleted);
    entry := ch;
  }
}
