/** The add-event page: a form whose fields the inputs edit one at a time, and a submit
    that appends the new event to the list and the store. */
module AddEvent {
  import opened Calendar
  import opened Events

  /** The form record. The date is absent while the date input is empty; the category is
      `Blank` while "Select category" is chosen. */
  datatype Form = Form(id: string, title: string, desc: string, date: Option<Day>, category: Category)

  /** The record the form starts from and is reset to: every field empty. */
  const EmptyForm: Form := Form("", "", "", None, Blank)

  /** A change event of one input: the input's name and its new value. */
  datatype Input =
    | TitleInput(title: string)
    | DescInput(desc: string)
    | DateInput(date: Option<Day>)
    | CategoryInput(category: Category)

  /** The record after an input change: the field the input names takes the new value. */
  function Update(form: Form, input: Input): Form {
    match input
    case TitleInput(title) => form.(title := title)
    case DescInput(desc) => form.(desc := desc)
    case DateInput(date) => form.(date := date)
    case CategoryInput(category) => form.(category := category)
  }

  /** An input change sets the named field and leaves every other field as it was. */
  lemma UpdateChangesOnlyNamedField(form: Form, input: Input)
    ensures var f := Update(form, input);
            && f.id == form.id
            && (f.title == if input.TitleInput? then input.title else form.title)
            && (f.desc == if input.DescInput? then input.desc else form.desc)
            && (f.date == if input.DateInput? then input.date else form.date)
            && (f.category == if input.CategoryInput? then input.category else form.category)
  {
  }

  /** The event a submit creates: the form's fields, with the generated id in place of the
      form's. */
  function NewEvent(form: Form, date: Day, generatedId: string): (e: Event)
    requires form.date == Some(date)
  {
    Event(generatedId, form.title, form.desc, date, form.category)
  }

  class AddPage {
    var form: Form
    /** The events loaded when the page mounted, plus those added since. */
    var localEvents: seq<Event>
    const store: EventStore

    /** Mounting starts from the empty form and loads the stored events. */
    constructor (store: EventStore)
      ensures form == EmptyForm && localEvents == store.saved && this.store == store
    {
      form := EmptyForm;
      localEvents := store.saved;
      this.store := store;
    }

    /** An input's change event updates the field it names. */
    method HandleInputChange(input: Input)
      modifies this
      ensures form == Update(old(form), input)
      ensures localEvents == old(localEvents)
    {
      form := Update(form, input);
    }

    /** Submitting the form. Without a date it is rejected and nothing changes. Otherwise
        one event with the form's fields and the generated id is appended to the list, the
        list is written to the store, and the form is reset. */
    method HandleSubmit(generatedId: string) returns (accepted: bool)
      modifies this, store
      ensures accepted <==> old(form).date.Some?
      ensures !accepted ==> form == old(form) && localEvents == old(localEvents) && store.saved == old(store.saved)
      ensures accepted ==>
                && localEvents == old(localEvents) + [NewEvent(old(form), old(form).date.value, generatedId)]
                && store.saved == localEvents
                && form == EmptyForm
    {
      if form.date.None? {
        return false;
      }
      var newEvent := NewEvent(form, form.date.value, generatedId);
      var updatedEvents := localEvents + [newEvent];
      localEvents := updatedEvents;
      store.Save(updatedEvents);
      form := EmptyForm;
      return true;
    }
  }

  /** An accepted submit keeps every earlier event in place and adds exactly one at the
      end, carrying the form's title, description, date and category and the generated id. */
  lemma SubmitAppendsOne(events: seq<Event>, form: Form, date: Day, generatedId: string)
    requires form.date == Some(date)
    ensures var r := events + [NewEvent(form, date, generatedId)];
            && |r| == |events| + 1
            && r[..|events|] == events
            && r[|events|].id == generatedId
            && r[|events|].title == form.title && r[|events|].desc == form.desc
            && r[|events|].date == date && r[|events|].category == form.category
            && multiset(r) == multiset(events) + multiset{NewEvent(form, date, generatedId)}
  {
    var r := events + [NewEvent(form, date, generatedId)];
    assert r[..|events|] == events;
  }
}
