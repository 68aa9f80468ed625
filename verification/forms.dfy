/** What pressing a form's submit button did. */
module Forms {

  /** `Ignored`: the button is disabled while a submission is in flight, so
      the press has no effect. `Blocked`: the browser's own constraint
      validation (`required`, `type="email"`) refused the form, so its
      `submit` handler never ran. `Rejected`: the handler's validator refused
      and an error notice was shown. `Accepted`: the simulated send has
      started. */
  datatype Outcome = Ignored | Blocked | Rejected | Accepted
}
